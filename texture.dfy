/** The texture part of the feature vector: the 10-bin histogram of the
    uniform local-binary-pattern codes of the white pixels, and its
    normalisation by (sum + 1e-6). */
module Texture {
  import opened Sums

  /** The number of histogram bins: edges 0, 1, ..., 10. */
  const BinCount := 10

  /** The constant added to the histogram total before dividing by it. */
  const Epsilon: real := 0.000001

  /** The uniform LBP with P = 8 neighbours yields the codes 0..P+1. */
  predicate IsTextureCode(c: int)
  {
    0 <= c <= 9
  }

  /** np.histogram with edges 0..10: bin b holds b <= v < b + 1, and the
      last bin is closed on the right, so it also holds v == 10. */
  predicate InBin(v: int, b: int)
  {
    b <= v < b + 1 || (b == BinCount - 1 && v == BinCount)
  }

  /** The bin a value in [0, 10] falls into. */
  function BinOf(v: int): (b: int)
    requires 0 <= v <= BinCount
    ensures 0 <= b < BinCount
    ensures forall k :: 0 <= k < BinCount ==> (InBin(v, k) <==> k == b)
  {
    if v == BinCount then BinCount - 1 else v
  }

  /** How many of the codes fall into bin b. */
  function CountInBin(codes: seq<int>, b: int): nat
  {
    if codes == [] then 0 else (if InBin(codes[0], b) then 1 else 0) + CountInBin(codes[1..], b)
  }

  /** np.histogram(codes, bins=np.arange(0, 11)): the ten bin counts. */
  function Histogram(codes: seq<int>): (h: seq<int>)
    ensures |h| == BinCount
  {
    seq(BinCount, b requires 0 <= b < BinCount => CountInBin(codes, b))
  }

  /** ndarray.astype("float"). */
  function ToReals(s: seq<int>): (r: seq<real>)
    ensures |r| == |s|
  {
    seq(|s|, i requires 0 <= i < |s| => s[i] as real)
  }

  /** Every element of s divided by d. */
  function DivideAll(s: seq<real>, d: real): (r: seq<real>)
    requires d != 0.0
    ensures |r| == |s|
  {
    seq(|s|, i requires 0 <= i < |s| => s[i] / d)
  }

  /** The denominator of the normalisation: the total plus 1e-6. */
  function Denominator(h: seq<real>): real
  {
    RealSum(h) + Epsilon
  }

  /** hist / (hist.sum() + 1e-6) */
  function Normalized(h: seq<real>): (r: seq<real>)
    requires AllNonNegative(h)
    ensures |r| == |h|
  {
    RealSumNonNegative(h);
    DivideAll(h, Denominator(h))
  }

  /** hist /= (hist.sum() + 1e-6), in place: the total is taken once, then
      every bin is divided by it plus 1e-6. */
  method NormalizeInPlace(h: array<real>)
    requires AllNonNegative(h[..])
    modifies h
    ensures h[..] == Normalized(old(h[..]))
  {
    RealSumNonNegative(h[..]);
    var d := RealSum(h[..]) + Epsilon;
    ghost var before := h[..];
    for k := 0 to h.Length
      invariant forall j :: 0 <= j < k ==> h[j] == before[j] / d
      invariant forall j :: k <= j < h.Length ==> h[j] == before[j]
    {
      h[k] := h[k] / d;
    }
  }

  // ---------------------------------------------------------------------------
  // Count conservation

  lemma {:induction false} HistogramStep(codes: seq<int>)
    requires codes != [] && 0 <= codes[0] <= BinCount
    ensures Histogram(codes) == Histogram(codes[1..])[BinOf(codes[0]) := Histogram(codes[1..])[BinOf(codes[0])] + 1]
  {
    var b := BinOf(codes[0]);
    var h, t := Histogram(codes), Histogram(codes[1..]);
    forall k | 0 <= k < BinCount ensures h[k] == t[b := t[b] + 1][k] {
      assert h[k] == CountInBin(codes, k);
    }
  }

  lemma {:induction false} TotalOfIncrement(s: seq<int>, b: int)
    requires 0 <= b < |s|
    ensures Sum(s[b := s[b] + 1]) == Sum(s) + 1
  {
    if b > 0 {
      TotalOfIncrement(s[1..], b - 1);
      assert s[b := s[b] + 1][1..] == s[1..][b - 1 := s[1..][b - 1] + 1];
    }
  }

  lemma {:induction false} TotalOfZeros(s: seq<int>)
    requires forall i :: 0 <= i < |s| ==> s[i] == 0
    ensures Sum(s) == 0
  {
    if s != [] {
      assert forall i :: 0 <= i < |s[1..]| ==> s[1..][i] == s[i + 1];
      TotalOfZeros(s[1..]);
    }
  }

  /** Every code in [0, 10] falls into exactly one bin, so the bin counts add
      up to the number of codes. */
  lemma {:induction false} HistogramConservesCount(codes: seq<int>)
    requires forall i :: 0 <= i < |codes| ==> 0 <= codes[i] <= BinCount
    ensures Sum(Histogram(codes)) == |codes|
  {
    if codes == [] {
      TotalOfZeros(Histogram(codes));
    } else {
      assert forall i :: 0 <= i < |codes[1..]| ==> codes[1..][i] == codes[i + 1];
      HistogramConservesCount(codes[1..]);
      HistogramStep(codes);
      TotalOfIncrement(Histogram(codes[1..]), BinOf(codes[0]));
    }
  }

  /** On texture codes, which never reach 10, bin b counts exactly the codes
      equal to b. */
  lemma {:induction false} CountInBinOfCodes(codes: seq<int>, b: int)
    requires forall i :: 0 <= i < |codes| ==> IsTextureCode(codes[i])
    requires 0 <= b < BinCount
    ensures CountInBin(codes, b) == multiset(codes)[b]
  {
    if codes != [] {
      assert forall i :: 0 <= i < |codes[1..]| ==> codes[1..][i] == codes[i + 1];
      CountInBinOfCodes(codes[1..], b);
      assert codes == [codes[0]] + codes[1..];
      assert multiset(codes) == multiset([codes[0]]) + multiset(codes[1..]);
    }
  }

  // ---------------------------------------------------------------------------
  // Normalisation

  /** A non-negative element never exceeds the total. */
  lemma {:induction false} ElementAtMostTotal(s: seq<real>, k: int)
    requires AllNonNegative(s) && 0 <= k < |s|
    ensures s[k] <= RealSum(s)
  {
    assert AllNonNegative(s[1..]) by {
      forall i | 0 <= i < |s[1..]| ensures s[1..][i] >= 0.0 { assert s[1..][i] == s[i + 1]; }
    }
    RealSumNonNegative(s[1..]);
    if k > 0 {
      assert s[1..][k - 1] == s[k];
      ElementAtMostTotal(s[1..], k - 1);
    }
  }

  lemma {:induction false} TotalOfDivided(s: seq<real>, d: real)
    requires d > 0.0
    ensures RealSum(DivideAll(s, d)) == RealSum(s) / d
  {
    if s != [] {
      assert DivideAll(s, d)[1..] == DivideAll(s[1..], d);
      TotalOfDivided(s[1..], d);
      assert (s[0] + RealSum(s[1..])) / d == s[0] / d + RealSum(s[1..]) / d;
    }
  }

  /** Each normalised bin lies in [0, 1). */
  lemma NormalizedBinBounds(h: seq<real>, k: int)
    requires AllNonNegative(h) && 0 <= k < |h|
    ensures 0.0 <= Normalized(h)[k] < 1.0
  {
    ElementAtMostTotal(h, k);
    RealSumNonNegative(h);
    assert Normalized(h)[k] == h[k] / Denominator(h);
  }

  /** The normalised bins add up to total / (total + 1e-6). */
  lemma NormalizedTotal(h: seq<real>)
    requires AllNonNegative(h)
    ensures RealSum(h) >= 0.0
    ensures RealSum(Normalized(h)) == RealSum(h) / (RealSum(h) + Epsilon)
  {
    RealSumNonNegative(h);
    TotalOfDivided(h, Denominator(h));
  }

  lemma {:induction false} TotalOfReals(s: seq<int>)
    ensures RealSum(ToReals(s)) == Sum(s) as real
  {
    if s != [] {
      assert ToReals(s)[1..] == ToReals(s[1..]);
      TotalOfReals(s[1..]);
    }
  }

  /** The counts of codes in [0, 10], as floats, add up to the number of codes. */
  lemma HistogramRealTotal(codes: seq<int>)
    requires forall i :: 0 <= i < |codes| ==> IsTextureCode(codes[i])
    ensures AllNonNegative(ToReals(Histogram(codes)))
    ensures RealSum(ToReals(Histogram(codes))) == |codes| as real
  {
    HistogramConservesCount(codes);
    TotalOfReals(Histogram(codes));
  }

  /** Bin k of the normalised histogram of n codes is the number of codes k
      over n + 1e-6, and lies in [0, 1). */
  lemma NormalizedHistogramBin(codes: seq<int>, k: int)
    requires forall i :: 0 <= i < |codes| ==> IsTextureCode(codes[i])
    requires 0 <= k < BinCount
    ensures AllNonNegative(ToReals(Histogram(codes)))
    ensures Normalized(ToReals(Histogram(codes)))[k] == CountInBin(codes, k) as real / (|codes| as real + Epsilon)
    ensures 0.0 <= Normalized(ToReals(Histogram(codes)))[k] < 1.0
  {
    var counts := ToReals(Histogram(codes));
    HistogramRealTotal(codes);
    NormalizedBinBounds(counts, k);
    assert Normalized(counts)[k] == counts[k] / Denominator(counts);
  }

  /** The normalised texture histogram of n codes: bin k is the number of
      codes k over n + 1e-6, every bin lies in [0, 1), and
      the bins add up to n / (n + 1e-6), which is below 1 and, as soon as
      there is a code, within 1e-6 of 1. */
  lemma NormalizedHistogramBounds(codes: seq<int>)
    requires forall i :: 0 <= i < |codes| ==> IsTextureCode(codes[i])
    ensures var counts := ToReals(Histogram(codes));
            AllNonNegative(counts) &&
            (forall k :: 0 <= k < BinCount ==>
               Normalized(counts)[k] == CountInBin(codes, k) as real / (|codes| as real + Epsilon) &&
               0.0 <= Normalized(counts)[k] < 1.0) &&
            RealSum(Normalized(counts)) == |codes| as real / (|codes| as real + Epsilon) &&
            RealSum(Normalized(counts)) < 1.0 &&
            (|codes| > 0 ==> 1.0 - Epsilon < RealSum(Normalized(counts)))
  {
    var counts := ToReals(Histogram(codes));
    HistogramRealTotal(codes);
    forall k | 0 <= k < BinCount
      ensures Normalized(counts)[k] == CountInBin(codes, k) as real / (|codes| as real + Epsilon)
      ensures 0.0 <= Normalized(counts)[k] < 1.0
    {
      NormalizedHistogramBin(codes, k);
    }
    NormalizedTotal(counts);
    NormalizedTotalBelowOne(|codes|);
  }

  /** n / (n + 1e-6) is below 1, and from n = 1 on it is within 1e-6 of 1. */
  lemma NormalizedTotalBelowOne(n: nat)
    ensures n as real / (n as real + Epsilon) < 1.0
    ensures n > 0 ==> 1.0 - Epsilon < n as real / (n as real + Epsilon)
  {
    if n > 0 {
      NearOne(n as real);
    }
  }

  lemma NearOne(n: real)
    requires n >= 1.0
    ensures 1.0 - Epsilon < n / (n + Epsilon) < 1.0
  {
    var r := Epsilon / (n + Epsilon);
    assert 1.0 - n / (n + Epsilon) == r;
    assert r * (n + Epsilon) == Epsilon;
    assert r * n + r * Epsilon == Epsilon;
  }
}
