/** The arithmetic behind `scrollTo`: `Array.prototype.indexOf`, and the
    clamp that keeps the list from scrolling past its end. Quantities that
    JavaScript may hold as `undefined` or `NaN` are `Option<int>` with `None`
    for either; every `>` comparison involving `NaN` is false. */
module Scroll {
  import opened Wrappers

  /** `s.indexOf(x)` with `===`: the first position holding `x`, or -1. */
  function IndexOf<T(==)>(s: seq<T>, x: T): (r: int)
    ensures -1 <= r < |s|
    ensures r >= 0 ==> s[r] == x && forall j :: 0 <= j < r ==> s[j] != x
    ensures r == -1 <==> x !in s
  {
    if |s| == 0 then -1
    else if s[0] == x then 0
    else
      var rest := IndexOf(s[1..], x);
      if rest == -1 then -1 else rest + 1
  }

  /** Lines 105-110 of `scrollTo`: start from `position`; when
      `position + visibleListHeight > listHeight` use
      `listHeight - visibleListHeight` instead. */
  function ClampOffset(position: int, visible: Option<int>, listHeight: Option<int>): (r: int)
    ensures visible.Some? && listHeight.Some? ==> r + visible.value <= listHeight.value
    ensures visible.Some? && listHeight.Some? && position + visible.value > listHeight.value ==>
              r == listHeight.value - visible.value
    ensures r <= position
    ensures r == position || (visible.Some? && listHeight.Some? && r + visible.value == listHeight.value)
    ensures visible.None? || listHeight.None? ==> r == position
  {
    if visible.Some? && listHeight.Some? && position + visible.value > listHeight.value then
      listHeight.value - visible.value
    else position
  }

  /** `countries.length * this.itemHeight` as written: `countries` is a plain
      object with two-letter keys, so `length` is `undefined` and the product
      is `NaN`. */
  function ListHeightAsWritten(itemHeight: int): (r: Option<int>)
    ensures r.None?
  {
    None
  }

  /** The height the list evidently should have: `cca2List.length` rows of
      `itemHeight` each. */
  function ListHeight(rows: nat, itemHeight: int): (r: int)
    ensures r == rows * itemHeight
    ensures itemHeight >= 0 ==> r >= 0
    ensures rows == 0 ==> r == 0
  {
    rows * itemHeight
  }

  /** With the list height as written the clamp never fires: every
      offset is delivered unchanged, so letters near the end scroll past it.
      Three rows of height 10 behind a 20-high viewport: the third row is
      requested at offset 20, and 20 + 20 exceeds the 30-high list. */
  lemma AsWrittenScrollsPastEnd()
    ensures forall position, visible :: ClampOffset(position, visible, ListHeightAsWritten(10)) == position
    ensures ClampOffset(2 * 10, Some(20), ListHeightAsWritten(10)) + 20 > ListHeight(3, 10)
  {
  }

  /** Row `index + 1` starts no lower than the end of a list of `rows > index`
      rows of non-negative height. */
  lemma RowEndWithinList(rows: nat, h: int, index: nat)
    requires index < rows && 0 <= h
    ensures (index + 1) * h <= ListHeight(rows, h)
  {
    assert (index + 1) * h <= rows * h by {
      assert rows * h - (index + 1) * h == (rows - (index + 1)) * h;
      assert (rows - (index + 1)) * h >= 0;
    }
  }

  /** With the corrected list height, a viewport at least one row high and a
      list at least one viewport high, the delivered offset for row `index`
      brings that whole row into view, never scrolls above the list's top,
      never leaves the list's end above the viewport's bottom, and is the
      row's own offset when that already fits. */
  lemma CorrectedNeverPastEnd(rows: nat, h: int, index: nat, visible: int)
    requires index < rows && 0 <= h <= visible <= ListHeight(rows, h)
    ensures var r := ClampOffset(index * h, Some(visible), Some(ListHeight(rows, h)));
            0 <= r <= index * h && (index + 1) * h <= r + visible
    ensures ClampOffset(index * h, Some(visible), Some(ListHeight(rows, h))) + visible <= ListHeight(rows, h)
    ensures index * h + visible <= ListHeight(rows, h) ==>
              ClampOffset(index * h, Some(visible), Some(ListHeight(rows, h))) == index * h
  {
    RowEndWithinList(rows, h, index);
    assert index * h >= 0;
  }
}
