/** Optional values. `None` stands for JavaScript's `undefined` wherever the
    picker reads a property that may be absent. */
module Wrappers {

  datatype Option<+T> = None | Some(value: T)
}
