/** The slice of JavaScript object semantics the picker relies on: a plain
    object with string keys, whose `Object.keys` order is the order in which
    the keys were first assigned. That is the rule for keys that are not
    array indices, such as the two-letter country codes; integer-like keys,
    which JavaScript lists first in ascending order, are not modelled. */
module JsObject {

  /** No key occurs twice. */
  ghost predicate Distinct(s: seq<string>) {
    forall i, j :: 0 <= i < j < |s| ==> s[i] != s[j]
  }

  /** Every occurrence of `x` in `src` is at a position below `n`. */
  ghost predicate OccursBelow(src: seq<string>, x: string, n: int) {
    forall a :: 0 <= a < |src| && src[a] == x ==> a < n
  }

  /** Every element of `s` comes from `src`, and they appear in `s` in the
      order they have in `src`. */
  ghost predicate InSourceOrder(src: seq<string>, s: seq<string>) {
    && (forall k :: k in s ==> k in src)
    && (forall i, j, a, b :: 0 <= i < j < |s| && 0 <= a < |src| && 0 <= b < |src| && src[a] == s[i] && src[b] == s[j] ==> a < b)
  }

  /** Appending the element at position n keeps the order when everything
      already there occurs in `src` only before position n. */
  lemma AppendInSourceOrder(src: seq<string>, s: seq<string>, n: int, t: seq<string>)
    requires Distinct(src) && 0 <= n < |src|
    requires InSourceOrder(src, s)
    requires forall k :: k in s ==> OccursBelow(src, k, n)
    requires t == s + [src[n]]
    ensures InSourceOrder(src, t)
  {
    forall i, j, a, b | 0 <= i < j < |t| && 0 <= a < |src| && 0 <= b < |src| && src[a] == t[i] && src[b] == t[j]
      ensures a < b
    {
      if j == |s| {
        assert b == n;
        assert t[i] == s[i] && s[i] in s;
      } else {
        assert t[i] == s[i] && t[j] == s[j];
      }
    }
  }

  /** A plain object: `keys` is what `Object.keys` returns, `fields` the properties. */
  datatype Obj<V> = Obj(keys: seq<string>, fields: map<string, V>) {

    /** The key list enumerates exactly the properties, each once. */
    ghost predicate Valid() {
      && Distinct(keys)
      && (forall k :: k in fields <==> k in keys)
    }

    /** Property assignment `o[k] = v`: a new key goes to the end of the key
        order, an existing key keeps its place. */
    function Put(k: string, v: V): (r: Obj<V>)
      requires Valid()
      ensures r.Valid()
      ensures k in r.fields && r.fields[k] == v
      ensures forall k' :: k' != k ==> (k' in r.fields <==> k' in fields)
      ensures forall k' :: k' != k && k' in fields ==> r.fields[k'] == fields[k']
      ensures k in fields ==> r.keys == keys
      ensures k !in fields ==> r.keys == keys + [k]
    {
      if k in fields then Obj(keys, fields[k := v]) else Obj(keys + [k], fields[k := v])
    }
  }

  /** The object literal `{}`. */
  function Empty<V>(): Obj<V> {
    Obj([], map[])
  }
}
