/** The fuzzy string score used to pair spreadsheet labels with canonical site names:
    slide the shorter string along the longer one and keep the best count of
    position-wise equal characters (a Hamming similarity, with no gaps). */
module Alignment {

  /** `sum(1 for a, b in zip(A, B) if a == b)`: equal characters at equal positions,
      over the length of the shorter string. */
  function Matches(a: string, b: string): (r: nat)
    ensures r <= |a| && r <= |b|
  {
    if a == [] || b == [] then 0
    else (if a[0] == b[0] then 1 else 0) + Matches(a[1..], b[1..])
  }

  /** The score of the window of `b` that starts at `shift`. */
  function ShiftScore(a: string, b: string, shift: nat): nat
    requires shift <= |b|
  {
    Matches(a, b[shift..])
  }

  /** The best window score over the shifts `0 .. n - 1`. */
  function BestShift(a: string, b: string, n: nat): (r: nat)
    requires 1 <= n <= |b| + 1
    ensures forall shift :: 0 <= shift < n ==> ShiftScore(a, b, shift) <= r
    ensures exists shift :: 0 <= shift < n && ShiftScore(a, b, shift) == r
  {
    if n == 1 then ShiftScore(a, b, 0)
    else
      var best := BestShift(a, b, n - 1);
      var last := ShiftScore(a, b, n - 1);
      if last > best then last else best
  }

  /** `max_contiguous_alignment_score(A, B)`: the shorter string is swapped into first place,
      then the maximum is taken over the shifts `range(len(B) - len(A) + 1)`, which is
      never empty, so the maximum always exists. */
  function MaxContiguousAlignmentScore(a: string, b: string): (r: nat)
    ensures r <= |a| && r <= |b|
  {
    if |a| > |b| then BestShift(b, a, |a| - |b| + 1)
    else BestShift(a, b, |b| - |a| + 1)
  }

  /** The score is the largest window score: it is reached at some shift of the shorter
      string along the longer one and no shift scores more. */
  lemma ScoreIsBestWindow(a: string, b: string)
    requires |a| <= |b|
    ensures forall shift :: 0 <= shift <= |b| - |a| ==> Matches(a, b[shift..]) <= MaxContiguousAlignmentScore(a, b)
    ensures exists shift :: 0 <= shift <= |b| - |a| && Matches(a, b[shift..]) == MaxContiguousAlignmentScore(a, b)
  {
    var r := MaxContiguousAlignmentScore(a, b);
    var shift :| 0 <= shift < |b| - |a| + 1 && ShiftScore(a, b, shift) == r;
    assert Matches(a, b[shift..]) == r;
    forall shift' | 0 <= shift' <= |b| - |a|
      ensures Matches(a, b[shift'..]) <= r
    {
      assert ShiftScore(a, b, shift') <= r;
    }
  }

  lemma {:induction false} MatchesSymmetric(a: string, b: string)
    ensures Matches(a, b) == Matches(b, a)
    decreases |a|
  {
    if a != [] && b != [] {
      MatchesSymmetric(a[1..], b[1..]);
    }
  }

  /** A string matches every position of a string that begins with it. */
  lemma {:induction false} MatchesPrefix(a: string, b: string)
    requires |a| <= |b| && b[..|a|] == a
    ensures Matches(a, b) == |a|
    decreases |a|
  {
    if a != [] {
      assert b[0] == a[0];
      assert b[1..][..|a| - 1] == a[1..];
      MatchesPrefix(a[1..], b[1..]);
    }
  }

  /** The score does not depend on the order of its arguments. */
  lemma ScoreSymmetric(a: string, b: string)
    ensures MaxContiguousAlignmentScore(a, b) == MaxContiguousAlignmentScore(b, a)
  {
    if |a| == |b| {
      assert b[0..] == b && a[0..] == a;
      MatchesSymmetric(a, b);
    }
  }

  /** If the shorter string occurs contiguously in the longer one, the score is its length. */
  lemma ScoreOfContained(a: string, b: string, k: nat)
    requires k + |a| <= |b| && b[k..k + |a|] == a
    ensures MaxContiguousAlignmentScore(a, b) == |a|
    ensures MaxContiguousAlignmentScore(b, a) == |a|
  {
    assert b[k..][..|a|] == a;
    MatchesPrefix(a, b[k..]);
    ScoreIsBestWindow(a, b);
    ScoreSymmetric(a, b);
  }

  /** A string scores its full length against itself. */
  lemma ScoreSelf(a: string)
    ensures MaxContiguousAlignmentScore(a, a) == |a|
  {
    ScoreOfContained(a, a, 0);
  }
}
