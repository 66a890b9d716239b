/** Double-precision results as the feature vector holds them: a number, or
    the NaN that np.mean returns for an empty array. */
module Floats {

  datatype Float = Num(value: real) | NaN
}

/** The frequency-energy feature: the central crop of the magnitude spectrum
    (rows h//4 : 3*h//4, columns w//4 : 3*w//4) and its mean. The spectrum
    itself (FFT, shift, 20 * log(|F| + 1)) is computed outside this model. */
module Spectrum {
  import opened Floats
  import opened Raster
  import opened Sums

  /** The half-open row and column ranges of a crop. */
  datatype Window = Window(rowStart: nat, rowEnd: nat, colStart: nat, colEnd: nat)

  /** The central window of an h-by-w spectrum, by floor division. It lies
      inside the spectrum, it is non-empty exactly when h >= 2 and w >= 2,
      and from 4 on it keeps clear of every border. */
  function CentralWindow(h: nat, w: nat): (c: Window)
    ensures c.rowStart <= c.rowEnd <= h && c.colStart <= c.colEnd <= w
    ensures c.rowStart < c.rowEnd <==> h >= 2
    ensures c.colStart < c.colEnd <==> w >= 2
    ensures h >= 1 ==> c.rowEnd < h
    ensures w >= 1 ==> c.colEnd < w
    ensures 0 < c.rowStart <==> h >= 4
    ensures 0 < c.colStart <==> w >= 4
  {
    Window(h / 4, 3 * h / 4, w / 4, 3 * w / 4)
  }

  /** The Python slice s[lo:hi] for non-negative bounds: both bounds are
      clamped to the length, and a reversed range is empty. */
  function Slice<T>(s: seq<T>, lo: nat, hi: nat): (r: seq<T>)
    ensures lo <= hi <= |s| ==> r == s[lo..hi]
    ensures hi <= lo ==> r == []
    ensures |s| <= lo ==> r == []
    ensures lo <= |s| <= hi ==> r == s[lo..]
  {
    var a := if lo <= |s| then lo else |s|;
    var b := if hi <= |s| then hi else |s|;
    if a <= b then s[a..b] else []
  }

  /** Element k of a slice is element lo + k of the sliced sequence. */
  lemma SliceElement<T>(s: seq<T>, lo: nat, hi: nat, k: int)
    requires 0 <= k < |Slice(s, lo, hi)|
    ensures lo + k < |s| && Slice(s, lo, hi)[k] == s[lo + k]
  {
  }

  /** m[rowStart:rowEnd, colStart:colEnd] */
  function Crop(m: seq<seq<real>>, c: Window): seq<seq<real>>
  {
    var rows := Slice(m, c.rowStart, c.rowEnd);
    seq(|rows|, i requires 0 <= i < |rows| => Slice(rows[i], c.colStart, c.colEnd))
  }

  /** The number of cells, row by row. The spectrum comes from the library
      and is not known to be rectangular, so its crop may be ragged and
      Raster.Size (height times width) would not count it;
      CellCountOfRectangle shows the two agree on a rectangle. */
  function CellCount(g: seq<seq<real>>): nat
  {
    if g == [] then 0 else |g[0]| + CellCount(g[1..])
  }

  function CellTotal(g: seq<seq<real>>): real
  {
    if g == [] then 0.0 else RealSum(g[0]) + CellTotal(g[1..])
  }

  /** np.mean over every cell: NaN when there is no cell. */
  function GridMean(g: seq<seq<real>>): Float
  {
    if CellCount(g) == 0 then NaN else Num(CellTotal(g) / CellCount(g) as real)
  }

  /** high_freq_energy: the mean of the central crop of an h-by-w spectrum. */
  function CentralMean(spectrum: seq<seq<real>>, h: nat, w: nat): Float
  {
    GridMean(Crop(spectrum, CentralWindow(h, w)))
  }

  // ---------------------------------------------------------------------------

  lemma {:induction false} CellCountOfRectangle(g: seq<seq<real>>, w: nat)
    requires forall i :: 0 <= i < |g| ==> |g[i]| == w
    ensures CellCount(g) == |g| * w
  {
    if g != [] {
      assert forall i :: 0 <= i < |g[1..]| ==> g[1..][i] == g[i + 1];
      CellCountOfRectangle(g[1..], w);
      assert |g| * w == (|g| - 1) * w + w;
    }
  }

  /** Cropping an h-by-w spectrum to a window inside it keeps exactly the
      cells of the window, in order. */
  lemma CropCells(m: seq<seq<real>>, c: Window)
    requires Rectangular(m) && m != []
    requires c.rowStart <= c.rowEnd <= |m| && c.colStart <= c.colEnd <= Width(m)
    ensures |Crop(m, c)| == c.rowEnd - c.rowStart
    ensures forall i :: 0 <= i < |Crop(m, c)| ==> |Crop(m, c)[i]| == c.colEnd - c.colStart
    ensures forall i, j :: 0 <= i < c.rowEnd - c.rowStart && 0 <= j < c.colEnd - c.colStart ==>
              Crop(m, c)[i][j] == m[c.rowStart + i][c.colStart + j]
  {
    var rows := Slice(m, c.rowStart, c.rowEnd);
    assert rows == m[c.rowStart..c.rowEnd];
    forall i | 0 <= i < |rows|
      ensures Crop(m, c)[i] == m[c.rowStart + i][c.colStart..c.colEnd]
    {
      assert rows[i] == m[c.rowStart + i];
    }
  }

  /** The frequency-energy feature of an h-by-w spectrum is a number exactly
      when h >= 2 and w >= 2; otherwise the crop is empty and np.mean gives NaN. */
  lemma CentralMeanDefined(spectrum: seq<seq<real>>, h: nat, w: nat)
    requires Rectangular(spectrum) && |spectrum| == h && Width(spectrum) == w
    ensures CentralMean(spectrum, h, w).Num? <==> h >= 2 && w >= 2
  {
    var c := CentralWindow(h, w);
    var crop := Crop(spectrum, c);
    if h == 0 {
      assert crop == [];
    } else {
      CropCells(spectrum, c);
      CellCountOfRectangle(crop, c.colEnd - c.colStart);
      var rows, cols := c.rowEnd - c.rowStart, c.colEnd - c.colStart;
      assert CellCount(crop) == rows * cols;
      assert rows * cols > 0 <==> rows > 0 && cols > 0;
    }
  }

  lemma {:induction false} CellTotalNonNegative(g: seq<seq<real>>)
    requires forall i, j :: 0 <= i < |g| && 0 <= j < |g[i]| ==> g[i][j] >= 0.0
    ensures CellTotal(g) >= 0.0
  {
    if g != [] {
      assert AllNonNegative(g[0]);
      RealSumNonNegative(g[0]);
      assert forall i :: 0 <= i < |g[1..]| ==> g[1..][i] == g[i + 1];
      CellTotalNonNegative(g[1..]);
    }
  }

  /** A log-magnitude spectrum, 20 * log(|F| + 1), is never negative, and then
      neither is the mean of its central crop. */
  lemma CentralMeanNonNegative(spectrum: seq<seq<real>>, h: nat, w: nat)
    requires forall i, j :: 0 <= i < |spectrum| && 0 <= j < |spectrum[i]| ==> spectrum[i][j] >= 0.0
    ensures CentralMean(spectrum, h, w).Num? ==> CentralMean(spectrum, h, w).value >= 0.0
  {
    var c := CentralWindow(h, w);
    var rows := Slice(spectrum, c.rowStart, c.rowEnd);
    var crop := Crop(spectrum, c);
    forall i, j | 0 <= i < |crop| && 0 <= j < |crop[i]| ensures crop[i][j] >= 0.0 {
      SliceElement(spectrum, c.rowStart, c.rowEnd, i);
      SliceElement(rows[i], c.colStart, c.colEnd, j);
    }
    CellTotalNonNegative(crop);
  }
}
