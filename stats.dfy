/** Intensity statistics of the white-pixel values: the numpy reductions
    np.mean, np.var (whose square root is np.std), np.min and np.max,
    computed exactly over integers and reals. */
module Stats {
  import opened Sums

  /** np.min of a non-empty array: the least element. */
  function Min(s: seq<int>): (m: int)
    requires s != []
    ensures m in s
    ensures forall i :: 0 <= i < |s| ==> m <= s[i]
  {
    if |s| == 1 then s[0]
    else
      var rest := Min(s[1..]);
      if s[0] <= rest then s[0] else rest
  }

  /** np.max of a non-empty array: the greatest element. */
  function Max(s: seq<int>): (m: int)
    requires s != []
    ensures m in s
    ensures forall i :: 0 <= i < |s| ==> s[i] <= m
  {
    if |s| == 1 then s[0]
    else
      var rest := Max(s[1..]);
      if s[0] >= rest then s[0] else rest
  }

  /** np.mean of a non-empty array, over the reals. */
  function Mean(s: seq<int>): real
    requires s != []
  {
    Sum(s) as real / |s| as real
  }

  /** d squared: np.var averages the squares of the deviations from the mean. */
  function Square(d: real): real
  {
    d * d
  }

  /** The sum of the squared deviations (x - m)^2 of the elements x of s from m. */
  function SquaredDeviations(s: seq<int>, m: real): real
  {
    if s == [] then 0.0 else Square(s[0] as real - m) + SquaredDeviations(s[1..], m)
  }

  /** Population variance, np.var with ddof 0 (np.std is its square root):
      the mean of the squared deviations from the mean. */
  function Variance(s: seq<int>): real
    requires s != []
  {
    SquaredDeviations(s, Mean(s)) / |s| as real
  }

  /** Every element of s lies in [lo, hi]. */
  predicate AllWithin(s: seq<int>, lo: int, hi: int)
  {
    forall i :: 0 <= i < |s| ==> lo <= s[i] <= hi
  }

  /** Every element of s is v. */
  predicate AllEqualTo(s: seq<int>, v: int)
  {
    forall i :: 0 <= i < |s| ==> s[i] == v
  }

  lemma {:induction false} SumBounds(s: seq<int>, lo: int, hi: int)
    requires AllWithin(s, lo, hi)
    ensures |s| * lo <= Sum(s) <= |s| * hi
  {
    if s != [] {
      assert AllWithin(s[1..], lo, hi) by {
        forall i | 0 <= i < |s[1..]| ensures lo <= s[1..][i] <= hi {
          assert s[1..][i] == s[i + 1];
        }
      }
      SumBounds(s[1..], lo, hi);
      assert |s| * lo == (|s| - 1) * lo + lo;
      assert |s| * hi == (|s| - 1) * hi + hi;
    }
  }

  /** The mean of the white pixels lies between their minimum and maximum. */
  lemma MeanBetweenMinMax(s: seq<int>)
    requires s != []
    ensures Min(s) as real <= Mean(s) <= Max(s) as real
  {
    var lo, hi, total, n := Min(s), Max(s), Sum(s), |s|;
    assert AllWithin(s, lo, hi);
    SumBounds(s, lo, hi);
    QuotientBounds(lo, hi, total, n);
  }

  lemma QuotientBounds(lo: int, hi: int, total: int, n: int)
    requires n > 0 && n * lo <= total <= n * hi
    ensures lo as real <= total as real / n as real <= hi as real
  {
    var q := total as real / n as real;
    assert (n * lo) as real == n as real * lo as real;
    assert (n * hi) as real == n as real * hi as real;
    assert q - lo as real == (total as real - n as real * lo as real) / n as real;
    assert hi as real - q == (n as real * hi as real - total as real) / n as real;
  }

  /** A real square is never negative, and positive unless the number is 0. */
  lemma SquareSign(d: real)
    ensures Square(d) >= 0.0
    ensures d != 0.0 ==> Square(d) > 0.0
  {
    if d != 0.0 {
      calc {
        Square(d);
        d * d;
      > 0.0;
      }
    } else {
      assert Square(d) == 0.0;
    }
  }

  lemma {:induction false} SquaredDeviationsNonNegative(s: seq<int>, m: real)
    ensures SquaredDeviations(s, m) >= 0.0
  {
    if s != [] {
      SquaredDeviationsNonNegative(s[1..], m);
      SquareSign(s[0] as real - m);
    }
  }

  /** The squared deviations from m vanish when every element is m ... */
  lemma {:induction false} SquaredDeviationsOfCentred(s: seq<int>, m: real)
    requires forall i :: 0 <= i < |s| ==> s[i] as real == m
    ensures SquaredDeviations(s, m) == 0.0
  {
    if s != [] {
      assert forall i :: 0 <= i < |s[1..]| ==> s[1..][i] == s[i + 1];
      SquaredDeviationsOfCentred(s[1..], m);
      assert s[0] as real - m == 0.0;
    }
  }

  /** ... and only then: one element away from m makes them positive. */
  lemma {:induction false} SquaredDeviationsPositive(s: seq<int>, m: real, k: int)
    requires 0 <= k < |s| && s[k] as real != m
    ensures SquaredDeviations(s, m) > 0.0
  {
    SquaredDeviationsNonNegative(s[1..], m);
    SquareSign(s[0] as real - m);
    if k != 0 {
      assert s[1..][k - 1] == s[k];
      SquaredDeviationsPositive(s[1..], m, k - 1);
    }
  }

  lemma {:induction false} SumOfConstant(s: seq<int>, v: int)
    requires AllEqualTo(s, v)
    ensures Sum(s) == |s| * v
  {
    if s != [] {
      assert AllEqualTo(s[1..], v) by {
        forall i | 0 <= i < |s[1..]| ensures s[1..][i] == v { assert s[1..][i] == s[i + 1]; }
      }
      SumOfConstant(s[1..], v);
      assert |s| * v == (|s| - 1) * v + v;
    }
  }

  /** The population variance is never negative. */
  lemma VarianceNonNegative(s: seq<int>)
    requires s != []
    ensures Variance(s) >= 0.0
  {
    SquaredDeviationsNonNegative(s, Mean(s));
    QuotientSign(SquaredDeviations(s, Mean(s)), |s| as real);
  }

  lemma MeanOfConstant(s: seq<int>, v: int)
    requires s != [] && AllEqualTo(s, v)
    ensures Mean(s) == v as real
  {
    SumOfConstant(s, v);
    var n := |s|;
    assert Sum(s) as real == (n * v) as real == (n as real) * (v as real);
  }

  /** A constant array has that constant as mean, minimum and maximum, and variance 0. */
  lemma ConstantStatistics(s: seq<int>, v: int)
    requires s != [] && AllEqualTo(s, v)
    ensures Mean(s) == v as real && Min(s) == v && Max(s) == v
    ensures Variance(s) == 0.0
  {
    MeanOfConstant(s, v);
    SquaredDeviationsOfCentred(s, v as real);
  }

  /** Two different values make the variance positive. */
  lemma VariancePositive(s: seq<int>, i: int, j: int)
    requires 0 <= i < |s| && 0 <= j < |s| && s[i] != s[j]
    ensures Variance(s) > 0.0
  {
    var m := Mean(s);
    var k := if s[i] as real != m then i else j;
    SquaredDeviationsPositive(s, m, k);
    QuotientSign(SquaredDeviations(s, m), |s| as real);
  }

  /** A quotient by a positive real keeps the sign of the dividend. */
  lemma QuotientSign(a: real, b: real)
    requires b > 0.0
    ensures a >= 0.0 ==> a / b >= 0.0
    ensures a > 0.0 ==> a / b > 0.0
  {
  }

  /** The variance is 0 exactly when all values are equal. */
  lemma VarianceZeroIffConstant(s: seq<int>)
    requires s != []
    ensures Variance(s) == 0.0 <==> forall i, j :: 0 <= i < |s| && 0 <= j < |s| ==> s[i] == s[j]
  {
    if forall i, j :: 0 <= i < |s| && 0 <= j < |s| ==> s[i] == s[j] {
      assert AllEqualTo(s, s[0]);
      ConstantStatistics(s, s[0]);
    } else {
      var i, j :| 0 <= i < |s| && 0 <= j < |s| && s[i] != s[j];
      VariancePositive(s, i, j);
    }
  }
}
