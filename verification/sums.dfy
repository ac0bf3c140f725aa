/**
 Reference arithmetic on integer sequences: the plain left-to-right sum that
 the segment tree is meant to answer faster.
 */
module Sums {

  /** The sum of all elements of `s` (0 for the empty sequence). */
  function SeqSum(s: seq<int>): int
  {
    if |s| == 0 then 0 else s[0] + SeqSum(s[1..])
  }

  /** Summing a concatenation is summing the parts. */
  lemma {:induction false} SumAppend(a: seq<int>, b: seq<int>)
    ensures SeqSum(a + b) == SeqSum(a) + SeqSum(b)
    decreases |a|
  {
    if |a| == 0 {
      assert a + b == b;
    } else {
      assert (a + b)[1..] == a[1..] + b;
      SumAppend(a[1..], b);
    }
  }

  /** Overwriting one element changes the sum by exactly the difference. */
  lemma {:induction false} SumUpdate(s: seq<int>, i: int, x: int)
    requires 0 <= i < |s|
    ensures SeqSum(s[i := x]) == SeqSum(s) - s[i] + x
    decreases |s|
  {
    if i == 0 {
      assert s[i := x][1..] == s[1..];
    } else {
      assert s[i := x][1..] == s[1..][i - 1 := x];
      SumUpdate(s[1..], i - 1, x);
    }
  }
}
