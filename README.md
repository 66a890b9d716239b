# White-region feature extractor

This project models `extract_white_area_features`. The function turns a
photographed QR code into a fixed 18-slot feature vector for a classifier
that tells printed codes from re-captured ones. It works in these steps:

- It thresholds the grayscale image at 200. Pixels strictly above 200 are
  "white".
- If no pixel is white, it returns 18 zeros at once.
- Otherwise it appends, in this order:
  - the mean, standard deviation, minimum and maximum of the white pixels'
    gray values, and the share of the image that is white;
  - the ten-bin histogram of the uniform local-binary-pattern (LBP) texture
    codes under the white mask, divided in place by its total plus 1e-6;
  - the Shannon entropy of the white values;
  - the variance of the image's Laplacian;
  - the mean of the central half of the image's log-magnitude spectrum.

The model is organised in modules:

- `Raster` (raster.dfy): images as sequences of rows. It holds the binary
  threshold (`cv2.threshold` with `THRESH_BINARY`) and boolean-mask selection
  `g[mask == 255]` in row-major order, with lemmas on what is selected, how often and
  how much.
- `Sums` (sums.dfy): `ndarray.sum()` over integers and over reals, shared by
  the other modules.
- `Stats` (stats.dfy): `np.mean`, `np.var`, `np.min` and `np.max` over
  integers and reals. The variance is numpy's population variance: the mean
  of the squared deviations from the mean.
- `Texture` (texture.dfy): `np.histogram` with edges 0..10, where the last bin
  is closed. It also holds the normalisation `hist / (hist.sum() + 1e-6)`:
  as a function, and as a method that divides an array in place.
- `Floats` and `Spectrum` (spectrum.dfy):
  - `Floats` holds a float slot value: a number or NaN.
  - `Spectrum` holds the central crop `[h//4 : 3*h//4, w//4 : 3*w//4]` with
    Python's clamping slice semantics, and `np.mean` of the crop. That mean
    is NaN when the crop is empty.
- `WhiteFeatures` (features.dfy) assembles the vector:
  - `FeatureVector` is the slot-by-slot definition.
  - `ExtractWhiteAreaFeatures` is the function as the program runs it. It
    builds `features` by appends and normalises the histogram in an array.
    It is proved equal to `FeatureVector`.
  - Lemmas state what each slot holds.

The inputs are:

- the grayscale image: a rectangular grid of integers in [0, 255];
- the LBP code grid: one code per pixel;
- a `Numerics` value that supplies four library computations as functions:
  - the square root inside `np.std`;
  - `shannon_entropy`;
  - the Laplacian variance;
  - the magnitude spectrum.

Behaviour worth knowing:

- The spectrum crop is already non-empty from 2 rows and 2 columns. From 4
  on it also keeps clear of every border (`Spectrum.CentralWindow`). Below 2
  rows or 2 columns, `np.mean` of the empty crop is NaN, and slot 17 holds
  NaN.
- The empty-region short-circuit also zeroes the Laplacian and spectrum
  slots, although those do not depend on the white region. The model keeps
  this.

## Model

| member | source | states |
|---|---|---|
| Raster.Threshold | feature_extractor_new.py:14 | the mask has the image's shape; a cell is 255 exactly when the gray value is above 200 and 0 exactly when it is at most 200 |
| Raster.SelectMembers | feature_extractor_new.py:15 | a value is selected by `g[mask == key]` exactly when some cell under the key holds it |
| Raster.SelectLength | feature_extractor_new.py:15 | as many values are selected as the mask has cells equal to the key, whatever grid they come from |
| Raster.SelectCount | feature_extractor_new.py:15 | each value occurs in `g[mask == key]` exactly as often as cells under the key hold it (`Raster.Occurrences`), so the selection is those cells with their multiplicities |
| Raster.WhitePixelCount | feature_extractor_new.py:14-15 | each gray value above 200 occurs among the white pixels exactly as often as the image holds it, and no value of 200 or less occurs |
| Raster.OccurrencesAbove | feature_extractor_new.py:32 | under a mask that holds the key exactly where the gray image exceeds the threshold, a value occurs under the key as often as cells above the threshold carry it (`Raster.CountAbove`) |
| Raster.WhitePixelMembers | feature_extractor_new.py:14-15 | a value is among the white pixels exactly when some pixel holds it and it is above 200 |
| Raster.WhitePixelRange | feature_extractor_new.py:14-15 | every white pixel value lies in [201, 255] |
| Raster.WhiteCount | feature_extractor_new.py:14-21 | the number of white pixels is at most the image size, is 0 exactly when no pixel exceeds 200, and equals the size exactly when every pixel does |
| Raster.WhiteRegionInImage | feature_extractor_new.py:21 | a non-empty white region has between 1 and size pixels, so the ratio's denominator is positive |
| Raster.WhiteCountMonotone | feature_extractor_new.py:14-15 | making more pixels exceed 200 never shrinks the white region |
| Stats.Min | feature_extractor_new.py:26 | the minimum is one of the values and no value is smaller |
| Stats.Max | feature_extractor_new.py:27 | the maximum is one of the values and no value is larger |
| Stats.MeanBetweenMinMax | feature_extractor_new.py:24-27 | min <= mean <= max |
| Stats.VarianceNonNegative | feature_extractor_new.py:25 | the population variance under the square root of `np.std` is never negative |
| Stats.VarianceZeroIffConstant | feature_extractor_new.py:25 | the variance is 0 exactly when all values are equal |
| Stats.ConstantStatistics | feature_extractor_new.py:24-27 | a constant array has that constant as mean, minimum and maximum, and variance 0 |
| Texture.BinOf | feature_extractor_new.py:33 | a code in [0, 10] falls into exactly one of the ten bins, the last bin being closed at 10 |
| Texture.HistogramConservesCount | feature_extractor_new.py:33 | the ten bin counts of codes in [0, 10] add up to the number of codes |
| Texture.HistogramRealTotal | feature_extractor_new.py:33-34 | after `astype("float")` the counts are non-negative and add up to the number of codes |
| Texture.NormalizeInPlace | feature_extractor_new.py:35 | dividing the array in place leaves exactly the normalised histogram of its old contents |
| Texture.NormalizedBinBounds | feature_extractor_new.py:35 | each normalised bin of a non-negative histogram lies in [0, 1) |
| Texture.NormalizedTotal | feature_extractor_new.py:35 | the normalised bins add up to total / (total + 1e-6) |
| Texture.NormalizedHistogramBin | feature_extractor_new.py:33-35 | bin k of the normalised histogram of n codes is the number of codes k over n + 1e-6, and lies in [0, 1) |
| Texture.NormalizedHistogramBounds | feature_extractor_new.py:33-35 | every bin is count / (n + 1e-6) in [0, 1); the bins add up to n / (n + 1e-6), which is below 1 and, for n > 0, within 1e-6 of 1 |
| Texture.NormalizedTotalBelowOne | feature_extractor_new.py:35 | n / (n + 1e-6) is below 1, and above 1 - 1e-6 once n >= 1 |
| Spectrum.CentralWindow | feature_extractor_new.py:50-53 | the crop lies inside the spectrum; it is non-empty exactly when h >= 2 and w >= 2; it skips row 0 (column 0) exactly when h >= 4 (w >= 4), and never reaches the last row or column |
| Spectrum.Slice | feature_extractor_new.py:50-53 | a Python slice inside bounds is the subsequence; one that starts inside and runs past the end is clamped to the end; an empty or out-of-range slice is empty |
| Spectrum.SliceElement | feature_extractor_new.py:50-53 | element k of a slice is element lo + k of the sliced sequence |
| Spectrum.CropCells | feature_extractor_new.py:50-53 | cropping to a window inside the spectrum keeps exactly the window's cells, in order |
| Spectrum.CentralMeanDefined | feature_extractor_new.py:50-54 | the mean of the central crop of an h-by-w spectrum is a number exactly when h >= 2 and w >= 2, and NaN otherwise |
| Spectrum.CentralMeanNonNegative | feature_extractor_new.py:49-54 | the mean of the crop of a non-negative spectrum, such as 20 * log(abs + 1), is never negative |
| Raster.WhiteMask | feature_extractor_new.py:14 | `cv2.threshold(gray, 200, 255, THRESH_BINARY)`: a mask of the image's shape; its cell values are stated by `Raster.Threshold` |
| Raster.Select | feature_extractor_new.py:15 | boolean-mask indexing `g[mask == key]` in row-major order; which values it selects, how many, and how often each is stated by `Raster.SelectMembers`, `Raster.SelectLength` and `Raster.SelectCount` |
| Raster.WhitePixels | feature_extractor_new.py:15 | `gray[white_mask == 255]`; its values, their multiplicities and its size are stated by `Raster.WhitePixelMembers`, `Raster.WhitePixelCount`, `Raster.WhitePixelRange` and `Raster.WhiteCount` |
| Stats.Mean | feature_extractor_new.py:24 | `np.mean`: the sum over the count; `Stats.MeanBetweenMinMax` and `Stats.ConstantStatistics` state its bounds and its value on a constant array |
| Stats.SquaredDeviations | feature_extractor_new.py:25 | the sum of the squared deviations from a point; `Stats.SquaredDeviationsNonNegative`, `Stats.SquaredDeviationsOfCentred` and `Stats.SquaredDeviationsPositive` state that it is never negative, 0 when every value is that point, and positive when one value is not |
| Stats.Variance | feature_extractor_new.py:25 | `np.var` with ddof 0, whose square root is `np.std`: the mean of the squared deviations from the mean; `Stats.VarianceNonNegative` and `Stats.VarianceZeroIffConstant` state its sign |
| Texture.Histogram | feature_extractor_new.py:33 | `np.histogram` with edges 0..10: ten counts, bin b counting the codes `Texture.BinOf` sends to b; `Texture.HistogramConservesCount` states that they add up to the number of codes |
| Texture.ToReals | feature_extractor_new.py:34 | `astype("float")`: the same counts as reals, one per bin; `Texture.HistogramRealTotal` states their total |
| Texture.Normalized | feature_extractor_new.py:35 | `hist / (hist.sum() + 1e-6)`, one value per bin; `Texture.NormalizedBinBounds` and `Texture.NormalizedTotal` state its bins and total |
| Spectrum.Crop | feature_extractor_new.py:50-53 | the two-dimensional slice of the spectrum; `Spectrum.CropCells` states which cells it keeps |
| Spectrum.GridMean | feature_extractor_new.py:54 | `np.mean` over every cell, NaN when there is none; for the central crop, `Spectrum.CentralMeanDefined` and `Spectrum.CentralMeanNonNegative` state when it is a number and its sign |
| Spectrum.CentralMean | feature_extractor_new.py:50-54 | `high_freq_energy`: the mean of the central crop; `Spectrum.CentralMeanDefined` and `Spectrum.CentralMeanNonNegative` state its properties |
| WhiteFeatures.Zeros | feature_extractor_new.py:18 | the vector of the empty region, 18 slots of 0; `WhiteFeatures.ZerosExactlyWhenNoWhite` states when it is returned |
| WhiteFeatures.WhiteRatio | feature_extractor_new.py:21 | `white_pixels.size / gray.size`; `WhiteFeatures.IntensitySlots` and `WhiteFeatures.WhiteRatioMonotone` state that it lies in (0, 1], is 1 exactly for an all-white image, and never falls when more pixels exceed 200 |
| WhiteFeatures.IntensityFeatures | feature_extractor_new.py:24-28 | the five intensity slots in order: mean, std, min, max, white ratio; `WhiteFeatures.IntensitySlots` states their values |
| WhiteFeatures.WhiteCodes | feature_extractor_new.py:32 | `lbp[white_mask == 255]`; `WhiteFeatures.WhiteCodesMatchWhitePixels` states that there are as many as white pixels, and `WhiteFeatures.WhiteCodeCount` how often each code occurs |
| WhiteFeatures.TextureHistogram | feature_extractor_new.py:32-35 | the ten normalised bins of the white pixels' texture codes; `WhiteFeatures.WhiteTextureHistogram` states each bin and their total |
| WhiteFeatures.FeatureVector | feature_extractor_new.py:9-57 | the vector has 18 slots on every path |
| WhiteFeatures.ExtractWhiteAreaFeatures | feature_extractor_new.py:9-57 | the appends and the in-place normalisation produce exactly the slot-by-slot vector |
| WhiteFeatures.NormalizedHistogramArray | feature_extractor_new.py:33-35 | the fresh float array holds the histogram of the codes divided by its total plus 1e-6 |
| WhiteFeatures.ZerosExactlyWhenNoWhite | feature_extractor_new.py:17-19 | the vector is 18 zeros exactly when no pixel exceeds 200, whatever the texture codes and library values |
| WhiteFeatures.WhiteCodesMatchWhitePixels | feature_extractor_new.py:32 | the masked texture codes are as many as the white pixels, and each is a texture code |
| WhiteFeatures.SlotLayout | feature_extractor_new.py:24-55 | on a non-empty region the slots are, in order: mean, std, min, max, white ratio, the ten normalised bins, entropy, Laplacian variance, spectrum mean |
| WhiteFeatures.IntensitySlots | feature_extractor_new.py:21-28 | 201 <= min <= mean <= max <= 255; the variance under the square root is >= 0 and is 0 exactly when all white values agree; the white ratio is in (0, 1] and is 1 exactly when every pixel is white |
| WhiteFeatures.WhiteCodeCount | feature_extractor_new.py:32 | texture code c occurs among the masked codes exactly as often as there are pixels above 200 whose code is c |
| Texture.CountInBinOfCodes | feature_extractor_new.py:33 | on uniform-LBP codes in [0, 9], bin b of `np.histogram` counts exactly the codes equal to b |
| WhiteFeatures.WhiteTextureHistogram | feature_extractor_new.py:32-36 | bin b is the number of pixels above 200 with code b over n + 1e-6, in [0, 1); the bins add up to n / (n + 1e-6), below 1 and within 1e-6 of 1 when n > 0 |
| WhiteFeatures.TextureSlots | feature_extractor_new.py:33-36 | slots 5..14 are the normalised bins, and they add up to within 1e-6 of 1 |
| WhiteFeatures.SpectrumSlotDefined | feature_extractor_new.py:47-55 | slot 17 is a number exactly when the image has at least 2 rows and 2 columns, and is never negative when the spectrum is not |
| WhiteFeatures.AllWhiteImage | feature_extractor_new.py:14-36 | an all-255 image gives ratio 1, mean = min = max = 255, the square root of 0 as std, and bins adding up to within 1e-6 of 1 |
| WhiteFeatures.WhiteRatioMonotone | feature_extractor_new.py:21 | making more pixels exceed 200 never lowers the white ratio |

## Left out

- The colour conversion `cv2.cvtColor` and the B, G, R channel order: the grayscale image is the input.
- `local_binary_pattern`: the grid of texture codes is an input. The histogram lemmas require codes in [0, 9], which the uniform pattern with 8 neighbours produces.
- The numeric library computations are fields of `Numerics` and are not opened: the square root of `np.std`, `shannon_entropy`, the Laplacian variance, and the FFT, shift and log-magnitude spectrum. Nothing is proved about their values, such as an entropy of 0 for a constant region.
- Floating-point rounding: every value is an exact real, and 1e-6 is the exact real 1/1000000. Statements such as "the bins add up to 1.0 within 1e-6" hold exactly in the model.
- `np.array(features)` and the dtype of the zero vector, which the code builds from Python integers 0: the zero slots are the number 0 in the model.
- Determinism needs no lemma: the model is a function of its inputs.
- The Streamlit application (app.py) and the interpreter banner and prompts around the pasted function.
- Zero-area images: the program fails in `cv2.cvtColor` for them. The model starts from the gray image and returns 18 zeros for an image with no pixels, since it has no white pixel.
- Stats.Variance: computed over exact reals; numpy's floating-point evaluation of the two passes is not modelled.
- WhiteFeatures.SpectrumSlotDefined: it requires the library to return a spectrum of the image's own shape, which `np.fft.fft2` does.
- WhiteFeatures.IntensitySlots: the std slot is stated as the library square root of the variance, not as a value, since the square root is not opened.
