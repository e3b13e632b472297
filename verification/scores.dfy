/**
  Extremes of a non-empty sequence of integer grades: the built-in `max` and
  `min` that the grading check applies to its filtered grade lists.
 */
module Scores {

  /** The largest element of a non-empty sequence. */
  function Max(s: seq<int>): (m: int)
    requires |s| > 0
    ensures m in s
    ensures forall i :: 0 <= i < |s| ==> s[i] <= m
  {
    if |s| == 1 then s[0]
    else
      var rest := Max(s[1..]);
      if rest < s[0] then s[0] else rest
  }

  /** The smallest element of a non-empty sequence. */
  function Min(s: seq<int>): (m: int)
    requires |s| > 0
    ensures m in s
    ensures forall i :: 0 <= i < |s| ==> m <= s[i]
  {
    if |s| == 1 then s[0]
    else
      var rest := Min(s[1..]);
      if s[0] < rest then s[0] else rest
  }

  /** Max and Min see only which values occur, not where or how often. */
  lemma ExtremesOfSameElements(a: seq<int>, b: seq<int>)
    requires |a| > 0 && |b| > 0
    requires forall x :: x in a <==> x in b
    ensures Max(a) == Max(b)
    ensures Min(a) == Min(b)
  {
    var ma, mb := Max(a), Max(b);
    assert ma in b;
    assert mb in a;
    var na, nb := Min(a), Min(b);
    assert na in b;
    assert nb in a;
  }
}
