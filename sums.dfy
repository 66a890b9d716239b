/** Sums of sequences, as ndarray.sum() gives them, shared by the statistics,
    the histogram and the spectrum mean. */
module Sums {

  /** The sum of a sequence of integers. */
  function Sum(s: seq<int>): int
  {
    if s == [] then 0 else s[0] + Sum(s[1..])
  }

  /** The sum of a sequence of reals. */
  function RealSum(s: seq<real>): real
  {
    if s == [] then 0.0 else s[0] + RealSum(s[1..])
  }

  predicate AllNonNegative(s: seq<real>)
  {
    forall i :: 0 <= i < |s| ==> s[i] >= 0.0
  }

  /** A sum of non-negative reals is non-negative. */
  lemma {:induction false} RealSumNonNegative(s: seq<real>)
    requires AllNonNegative(s)
    ensures RealSum(s) >= 0.0
  {
    if s != [] {
      assert AllNonNegative(s[1..]) by {
        forall i | 0 <= i < |s[1..]| ensures s[1..][i] >= 0.0 { assert s[1..][i] == s[i + 1]; }
      }
      RealSumNonNegative(s[1..]);
    }
  }
}
