/** The alphabet rail's letters: `_.range('A'.charCodeAt(0), 'Z'.charCodeAt(0) + 1)`
    mapped through `String.fromCharCode(n).substr(0)`. */
module Alphabet {

  /** lodash `_.range(start, end)` with its default step: counts up by one
      when `start < end` and down by one otherwise, excluding `end`. */
  function Range(start: int, end: int): (r: seq<int>)
    ensures start <= end ==> |r| == end - start
    ensures end <= start ==> |r| == start - end
    ensures start <= end ==> forall i :: 0 <= i < |r| ==> r[i] == start + i
    ensures end <= start ==> forall i :: 0 <= i < |r| ==> r[i] == start - i
    decreases if start <= end then end - start else start - end
  {
    if start == end then []
    else if start < end then [start] + Range(start + 1, end)
    else [start] + Range(start - 1, end)
  }

  /** `String.fromCharCode(n)` for a code unit below the surrogate range: the
      one-character string whose character has code `n`. */
  function FromCharCode(n: int): (s: string)
    requires 0 <= n < 0xD800
    ensures |s| == 1 && s[0] as int == n
  {
    [n as char]
  }

  /** The component's `letters` field. */
  function Letters(): (r: seq<string>)
    ensures |r| == 26
    ensures forall i :: 0 <= i < 26 ==> r[i] == [('A' as int + i) as char]
  {
    var codes := Range('A' as int, 'Z' as int + 1);
    seq(|codes|, i requires 0 <= i < |codes| => FromCharCode(codes[i]))
  }

  /** The rail holds one-character strings, exactly the uppercase Latin
      letters, without repetition, in alphabetical order. */
  lemma LettersAreAlphabet()
    ensures forall s :: s in Letters() ==> |s| == 1 && 'A' <= s[0] <= 'Z'
    ensures forall c: char :: 'A' <= c <= 'Z' ==> [c] in Letters()
    ensures forall i, j :: 0 <= i < j < 26 ==> Letters()[i][0] < Letters()[j][0]
  {
    var ls := Letters();
    forall c: char | 'A' <= c <= 'Z'
      ensures [c] in ls
    {
      var i := c as int - 'A' as int;
      assert ls[i] == [c];
    }
  }
}
