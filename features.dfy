/** extract_white_area_features: the 18-slot feature vector of a grayscale
    image of a printed QR code, built from the statistics of its white region
    (gray value above 200), the texture-code histogram of that region, its
    entropy, the image's Laplacian variance and the mean of the central crop
    of its magnitude spectrum. */
module WhiteFeatures {
  import opened Floats
  import opened Raster
  import opened Stats
  import opened Texture
  import opened Spectrum
  import opened Sums

  /** The length of the feature vector on every path. */
  const FeatureCount := 18

  /** Slot positions: 0 mean, 1 std, 2 min, 3 max, 4 white ratio, 5..14 the
      texture bins 0..9, 15 entropy, 16 Laplacian variance, 17 spectrum mean. */
  const MeanSlot := 0
  const StdSlot := 1
  const MinSlot := 2
  const MaxSlot := 3
  const RatioSlot := 4
  const TextureSlot := 5
  const EntropySlot := 15
  const LaplacianSlot := 16
  const SpectrumSlot := 17

  /** The number of intensity slots: mean, std, min, max and white ratio. */
  const IntensityCount := 5

  /** The library numerics the extractor calls and this model does not open:
      the square root inside np.std, skimage's shannon_entropy, the variance
      of cv2.Laplacian(gray, CV_64F), and the magnitude spectrum
      20 * log(|fftshift(fft2(gray))| + 1). */
  datatype Numerics = Numerics(
    sqrt: real -> real,
    entropy: seq<int> -> real,
    laplacianVariance: seq<seq<int>> -> real,
    magnitudeSpectrum: seq<seq<int>> -> seq<seq<real>>)

  /** The inputs the extractor works from: an 8-bit grayscale image and the
      uniform LBP codes (P = 8, R = 1) of its pixels, one per pixel. */
  predicate ValidInput(gray: seq<seq<int>>, lbp: seq<seq<int>>)
  {
    IsGrayImage(gray) && SameShape(lbp, gray)
  }

  /** The codes are those a uniform LBP with 8 neighbours produces. */
  predicate TextureCodes(lbp: seq<seq<int>>)
  {
    forall i, j :: 0 <= i < |lbp| && 0 <= j < |lbp[i]| ==> IsTextureCode(lbp[i][j])
  }

  /** The vector of the empty white region: 18 zeros. */
  function Zeros(): (r: seq<Float>)
    ensures |r| == FeatureCount
  {
    seq(FeatureCount, _ => Num(0.0))
  }

  function Nums(s: seq<real>): (r: seq<Float>)
    ensures |r| == |s|
  {
    seq(|s|, i requires 0 <= i < |s| => Num(s[i]))
  }

  /** lbp[white_mask == 255]: the texture codes of the white pixels. */
  function WhiteCodes(gray: seq<seq<int>>, lbp: seq<seq<int>>): seq<int>
    requires ValidInput(gray, lbp)
  {
    Select(lbp, WhiteMask(gray), WhiteValue)
  }

  /** The share of the image that is white. */
  function WhiteRatio(gray: seq<seq<int>>): real
    requires IsGrayImage(gray) && WhitePixels(gray) != []
  {
    WhiteRegionInImage(gray);
    |WhitePixels(gray)| as real / Size(gray) as real
  }

  /** The normalised ten-bin histogram of the white pixels' texture codes. */
  function TextureHistogram(gray: seq<seq<int>>, lbp: seq<seq<int>>): (h: seq<real>)
    requires ValidInput(gray, lbp)
    ensures |h| == BinCount
  {
    var counts := ToReals(Histogram(WhiteCodes(gray, lbp)));
    assert AllNonNegative(counts);
    Normalized(counts)
  }

  /** The five intensity slots of a non-empty white region: mean, standard
      deviation, minimum, maximum and white ratio. */
  function IntensityFeatures(gray: seq<seq<int>>, lib: Numerics): (r: seq<Float>)
    requires IsGrayImage(gray) && WhitePixels(gray) != []
    ensures |r| == IntensityCount
  {
    var white := WhitePixels(gray);
    [Num(Mean(white)), Num(lib.sqrt(Variance(white))), Num(Min(white) as real), Num(Max(white) as real),
     Num(WhiteRatio(gray))]
  }

  /** The feature vector, slot by slot; 18 zeros when no pixel is white. */
  function FeatureVector(gray: seq<seq<int>>, lbp: seq<seq<int>>, lib: Numerics): (r: seq<Float>)
    requires ValidInput(gray, lbp)
    ensures |r| == FeatureCount
  {
    var white := WhitePixels(gray);
    if white == [] then Zeros()
    else
      IntensityFeatures(gray, lib)
      + Nums(TextureHistogram(gray, lbp))
      + [Num(lib.entropy(white)), Num(lib.laplacianVariance(gray)),
         CentralMean(lib.magnitudeSpectrum(gray), |gray|, Width(gray))]
  }

  /** The extractor as the program runs it: the list of features grows by
      appends, the histogram is an array of floats divided in place, and an
      empty white region returns 18 zeros at once. */
  method ExtractWhiteAreaFeatures(gray: seq<seq<int>>, lbp: seq<seq<int>>, lib: Numerics)
    returns (features: seq<Float>)
    requires ValidInput(gray, lbp)
    ensures features == FeatureVector(gray, lbp, lib)
  {
    features := [];
    var whiteMask := Threshold(gray, WhiteThreshold, WhiteValue);
    var whitePixels := Select(gray, whiteMask, WhiteValue);
    if |whitePixels| == 0 {
      features := features + Zeros();
      return;
    }
    assert whitePixels == WhitePixels(gray);
    WhiteRegionInImage(gray);
    var whiteRatio := |whitePixels| as real / Size(gray) as real;

    features := features + [Num(Mean(whitePixels))];
    features := features + [Num(lib.sqrt(Variance(whitePixels)))];
    features := features + [Num(Min(whitePixels) as real)];
    features := features + [Num(Max(whitePixels) as real)];
    features := features + [Num(whiteRatio)];
    Appended5([], Num(Mean(whitePixels)), Num(lib.sqrt(Variance(whitePixels))), Num(Min(whitePixels) as real),
              Num(Max(whitePixels) as real), Num(whiteRatio));
    assert features == IntensityFeatures(gray, lib);

    var lbpMasked := Select(lbp, whiteMask, WhiteValue);
    assert lbpMasked == WhiteCodes(gray, lbp);
    var lbpHist := NormalizedHistogramArray(lbpMasked);
    assert lbpHist[..] == TextureHistogram(gray, lbp);
    features := features + Nums(lbpHist[..]);
    ghost var body := features;
    assert body == IntensityFeatures(gray, lib) + Nums(TextureHistogram(gray, lbp));

    var entropyValue := lib.entropy(whitePixels);
    features := features + [Num(entropyValue)];

    var laplacianVar := lib.laplacianVariance(gray);
    features := features + [Num(laplacianVar)];

    var magnitude := lib.magnitudeSpectrum(gray);
    var highFreqEnergy := CentralMean(magnitude, |gray|, Width(gray));
    features := features + [highFreqEnergy];
    Appended3(body, Num(entropyValue), Num(laplacianVar), highFreqEnergy);
    NonEmptyVector(gray, lbp, lib);
  }

  /** Five appends make the five-element display. */
  lemma Appended5<T>(p: seq<T>, a: T, b: T, c: T, d: T, e: T)
    ensures p + [a] + [b] + [c] + [d] + [e] == p + [a, b, c, d, e]
  {
  }

  /** Three appends make the three-element display. */
  lemma Appended3<T>(p: seq<T>, a: T, b: T, c: T)
    ensures p + [a] + [b] + [c] == p + [a, b, c]
  {
  }

  /** The histogram of the codes as a fresh array of floats, divided in place
      by its total plus 1e-6. */
  method NormalizedHistogramArray(codes: seq<int>) returns (hist: array<real>)
    ensures fresh(hist)
    ensures hist[..] == Normalized(ToReals(Histogram(codes)))
  {
    var counts := Histogram(codes);
    hist := new real[BinCount](i requires 0 <= i < BinCount => counts[i] as real);
    assert hist[..] == ToReals(counts);
    NormalizeInPlace(hist);
  }

  // ---------------------------------------------------------------------------
  // What the vector says

  /** The white region is empty exactly when no pixel exceeds 200, and then
      the vector is 18 zeros whatever the texture codes and the numerics; a
      non-empty region never gives 18 zeros, since its minimum is above 200. */
  lemma ZerosExactlyWhenNoWhite(gray: seq<seq<int>>, lbp: seq<seq<int>>, lib: Numerics)
    requires ValidInput(gray, lbp)
    ensures FeatureVector(gray, lbp, lib) == Zeros() <==> NoneWhite(gray)
  {
    WhiteCount(gray);
    var white := WhitePixels(gray);
    if white != [] {
      SlotLayout(gray, lbp, lib);
      WhitePixelRange(gray);
      assert Min(white) > WhiteThreshold;
      assert FeatureVector(gray, lbp, lib)[MinSlot] != Zeros()[MinSlot];
    }
  }

  /** The white pixels' texture codes are as many as the white pixels, and
      each is a texture code when the whole code grid is. */
  lemma WhiteCodesMatchWhitePixels(gray: seq<seq<int>>, lbp: seq<seq<int>>)
    requires ValidInput(gray, lbp) && TextureCodes(lbp)
    ensures |WhiteCodes(gray, lbp)| == |WhitePixels(gray)|
    ensures forall k :: 0 <= k < |WhiteCodes(gray, lbp)| ==> IsTextureCode(WhiteCodes(gray, lbp)[k])
  {
    var mask := WhiteMask(gray);
    assert SameShape(lbp, mask);
    SelectLength(lbp, mask, WhiteValue);
    SelectLength(gray, mask, WhiteValue);
    forall k | 0 <= k < |WhiteCodes(gray, lbp)| ensures IsTextureCode(WhiteCodes(gray, lbp)[k]) {
      SelectMembers(lbp, mask, WhiteValue, WhiteCodes(gray, lbp)[k]);
    }
  }

  /** Texture code c occurs among the white pixels' codes as often as there
      are pixels above 200 whose code is c. */
  lemma WhiteCodeCount(gray: seq<seq<int>>, lbp: seq<seq<int>>, c: int)
    requires ValidInput(gray, lbp)
    ensures multiset(WhiteCodes(gray, lbp))[c] == CountAbove(gray, WhiteThreshold, lbp, c)
  {
    var mask := WhiteMask(gray);
    SelectCount(lbp, mask, WhiteValue, c);
    OccurrencesAbove(lbp, mask, WhiteValue, c, gray, WhiteThreshold);
  }

  /** On a non-empty white region the vector is the intensity slots, the
      texture bins and the last three slots, in that order. */
  lemma NonEmptyVector(gray: seq<seq<int>>, lbp: seq<seq<int>>, lib: Numerics)
    requires ValidInput(gray, lbp) && WhitePixels(gray) != []
    ensures FeatureVector(gray, lbp, lib) ==
            IntensityFeatures(gray, lib) + Nums(TextureHistogram(gray, lbp))
            + [Num(lib.entropy(WhitePixels(gray))), Num(lib.laplacianVariance(gray)),
               CentralMean(lib.magnitudeSpectrum(gray), |gray|, Width(gray))]
  {
  }

  /** Where the three parts of a vector of 5 + 10 + 3 slots end up. */
  lemma PartsAt(head: seq<Float>, texture: seq<Float>, tail: seq<Float>)
    requires |head| == IntensityCount && |texture| == BinCount && |tail| == FeatureCount - EntropySlot
    ensures var r := head + texture + tail;
            r[MeanSlot] == head[0] && r[StdSlot] == head[1] && r[MinSlot] == head[2] &&
            r[MaxSlot] == head[3] && r[RatioSlot] == head[4] &&
            r[TextureSlot..EntropySlot] == texture &&
            r[EntropySlot] == tail[0] && r[LaplacianSlot] == tail[1] && r[SpectrumSlot] == tail[2]
  {
    var r := head + texture + tail;
    assert r[TextureSlot..EntropySlot] == texture;
  }

  /** The fixed slot order of a non-empty white region: mean, standard
      deviation, minimum, maximum, white ratio, the ten texture bins, then
      entropy, Laplacian variance and spectrum mean. */
  lemma SlotLayout(gray: seq<seq<int>>, lbp: seq<seq<int>>, lib: Numerics)
    requires ValidInput(gray, lbp) && WhitePixels(gray) != []
    ensures var r, white := FeatureVector(gray, lbp, lib), WhitePixels(gray);
            0 < |white| <= Size(gray) &&
            r[MeanSlot] == Num(Mean(white)) &&
            r[StdSlot] == Num(lib.sqrt(Variance(white))) &&
            r[MinSlot] == Num(Min(white) as real) &&
            r[MaxSlot] == Num(Max(white) as real) &&
            r[RatioSlot] == Num(|white| as real / Size(gray) as real) &&
            r[TextureSlot..EntropySlot] == Nums(TextureHistogram(gray, lbp)) &&
            r[EntropySlot] == Num(lib.entropy(white)) &&
            r[LaplacianSlot] == Num(lib.laplacianVariance(gray)) &&
            r[SpectrumSlot] == CentralMean(lib.magnitudeSpectrum(gray), |gray|, Width(gray))
  {
    WhiteRegionInImage(gray);
    NonEmptyVector(gray, lbp, lib);
    PartsAt(IntensityFeatures(gray, lib), Nums(TextureHistogram(gray, lbp)),
            [Num(lib.entropy(WhitePixels(gray))), Num(lib.laplacianVariance(gray)),
             CentralMean(lib.magnitudeSpectrum(gray), |gray|, Width(gray))]);
  }

  /** The intensity slots of a non-empty white region: 201 <= min <= mean <=
      max <= 255, the variance under the square root is never negative and is
      0 exactly when all white values agree, and the white ratio lies in
      (0, 1], reaching 1 exactly when every pixel is white. */
  lemma IntensitySlots(gray: seq<seq<int>>, lbp: seq<seq<int>>, lib: Numerics)
    requires ValidInput(gray, lbp) && WhitePixels(gray) != []
    ensures var r, white := FeatureVector(gray, lbp, lib), WhitePixels(gray);
            r[MeanSlot].Num? && r[MinSlot].Num? && r[MaxSlot].Num? && r[RatioSlot].Num? &&
            (WhiteThreshold + 1) as real <= r[MinSlot].value <= r[MeanSlot].value <= r[MaxSlot].value <= MaxIntensity as real &&
            r[StdSlot] == Num(lib.sqrt(Variance(white))) &&
            Variance(white) >= 0.0 &&
            (Variance(white) == 0.0 <==> forall i, j :: 0 <= i < |white| && 0 <= j < |white| ==> white[i] == white[j]) &&
            0.0 < r[RatioSlot].value <= 1.0 &&
            (r[RatioSlot].value == 1.0 <==> AllWhite(gray))
  {
    var r, white := FeatureVector(gray, lbp, lib), WhitePixels(gray);
    SlotLayout(gray, lbp, lib);
    WhiteCount(gray);
    WhitePixelRange(gray);
    MeanBetweenMinMax(white);
    VarianceNonNegative(white);
    VarianceZeroIffConstant(white);
    RatioBounds(|white|, Size(gray));
  }

  lemma RatioBounds(n: nat, size: nat)
    requires 0 < n <= size
    ensures 0.0 < n as real / size as real <= 1.0
    ensures n as real / size as real == 1.0 <==> n == size
  {
  }

  /** The normalised texture histogram of a white region of n pixels: bin b
      holds the number of pixels above 200 with code b over n + 1e-6, so every
      bin lies in [0, 1), and the ten bins add up to n / (n + 1e-6), below 1
      and, when the region is not empty, within 1e-6 of it. */
  lemma WhiteTextureHistogram(gray: seq<seq<int>>, lbp: seq<seq<int>>)
    requires ValidInput(gray, lbp) && TextureCodes(lbp)
    ensures var h, n := TextureHistogram(gray, lbp), |WhitePixels(gray)| as real;
            (forall b :: 0 <= b < BinCount ==>
               h[b] == CountInBin(WhiteCodes(gray, lbp), b) as real / (n + Epsilon) &&
               h[b] == CountAbove(gray, WhiteThreshold, lbp, b) as real / (n + Epsilon) &&
               0.0 <= h[b] < 1.0) &&
            RealSum(h) == n / (n + Epsilon) && RealSum(h) < 1.0 &&
            (n > 0.0 ==> 1.0 - Epsilon < RealSum(h))
  {
    WhiteCodesMatchWhitePixels(gray, lbp);
    var codes := WhiteCodes(gray, lbp);
    assert TextureHistogram(gray, lbp) == Normalized(ToReals(Histogram(codes)));
    NormalizedHistogramBounds(codes);
    forall b | 0 <= b < BinCount ensures CountInBin(codes, b) == CountAbove(gray, WhiteThreshold, lbp, b) {
      CountInBinOfCodes(codes, b);
      WhiteCodeCount(gray, lbp, b);
    }
  }

  /** The texture slots of a non-empty white region are the normalised
      histogram, whose ten bins add up to within 1e-6 of 1. */
  lemma TextureSlots(gray: seq<seq<int>>, lbp: seq<seq<int>>, lib: Numerics)
    requires ValidInput(gray, lbp) && TextureCodes(lbp) && WhitePixels(gray) != []
    ensures var r, h := FeatureVector(gray, lbp, lib), TextureHistogram(gray, lbp);
            r[TextureSlot..EntropySlot] == Nums(h) && 1.0 - Epsilon < RealSum(h) < 1.0
  {
    SlotLayout(gray, lbp, lib);
    WhiteTextureHistogram(gray, lbp);
  }

  /** The spectrum slot of a non-empty white region, for a spectrum of the
      image's own shape: a number exactly when the image has at least two rows
      and two columns, and never negative when the spectrum is not. */
  lemma SpectrumSlotDefined(gray: seq<seq<int>>, lbp: seq<seq<int>>, lib: Numerics)
    requires ValidInput(gray, lbp) && WhitePixels(gray) != []
    requires var m := lib.magnitudeSpectrum(gray); Rectangular(m) && |m| == |gray| && Width(m) == Width(gray)
    ensures var r := FeatureVector(gray, lbp, lib);
            (r[SpectrumSlot].Num? <==> |gray| >= 2 && Width(gray) >= 2) &&
            (((forall i, j :: 0 <= i < |gray| && 0 <= j < Width(gray) ==> lib.magnitudeSpectrum(gray)[i][j] >= 0.0) &&
              r[SpectrumSlot].Num?) ==> r[SpectrumSlot].value >= 0.0)
  {
    var m := lib.magnitudeSpectrum(gray);
    SlotLayout(gray, lbp, lib);
    CentralMeanDefined(m, |gray|, Width(gray));
    if forall i, j :: 0 <= i < |gray| && 0 <= j < Width(gray) ==> m[i][j] >= 0.0 {
      CentralMeanNonNegative(m, |gray|, Width(gray));
    }
  }

  /** An image whose every pixel is 255: ratio 1, mean, minimum and maximum
      255, variance 0 under the square root, and texture bins adding up to
      within 1e-6 of 1. */
  lemma AllWhiteImage(gray: seq<seq<int>>, lbp: seq<seq<int>>, lib: Numerics)
    requires ValidInput(gray, lbp) && TextureCodes(lbp)
    requires gray != [] && Width(gray) > 0
    requires forall i, j :: 0 <= i < |gray| && 0 <= j < |gray[i]| ==> gray[i][j] == MaxIntensity
    ensures var r := FeatureVector(gray, lbp, lib);
            r[MeanSlot] == r[MinSlot] == r[MaxSlot] == Num(MaxIntensity as real) &&
            r[StdSlot] == Num(lib.sqrt(0.0)) &&
            r[RatioSlot] == Num(1.0) &&
            1.0 - Epsilon < RealSum(TextureHistogram(gray, lbp)) < 1.0
  {
    assert gray[0][0] > WhiteThreshold;
    var white := WhitePixels(gray);
    WhiteCount(gray);
    assert AllEqualTo(white, MaxIntensity) by {
      forall k | 0 <= k < |white| ensures white[k] == MaxIntensity {
        WhitePixelMembers(gray, white[k]);
      }
    }
    ConstantStatistics(white, MaxIntensity);
    IntensitySlots(gray, lbp, lib);
    TextureSlots(gray, lbp, lib);
  }

  /** Brightening pixels past the threshold never lowers the white ratio. */
  lemma WhiteRatioMonotone(gray: seq<seq<int>>, brighter: seq<seq<int>>)
    requires IsGrayImage(gray) && IsGrayImage(brighter) && SameShape(gray, brighter) && WhitePixels(gray) != []
    requires forall i, j :: 0 <= i < |gray| && 0 <= j < |gray[i]| && gray[i][j] > WhiteThreshold ==>
               brighter[i][j] > WhiteThreshold
    ensures WhitePixels(brighter) != []
    ensures WhiteRatio(gray) <= WhiteRatio(brighter)
  {
    WhiteCountMonotone(gray, brighter);
    WhiteRegionInImage(gray);
    assert Size(gray) == Size(brighter);
    QuotientMonotone(|WhitePixels(gray)|, |WhitePixels(brighter)|, Size(gray));
  }

  lemma QuotientMonotone(a: nat, b: nat, d: nat)
    requires a <= b && d > 0
    ensures a as real / d as real <= b as real / d as real
  {
  }
}
