/** Two-dimensional rasters held as sequences of rows (numpy 2-D arrays), the
    binary threshold that segments a grayscale image into its white region,
    and boolean-mask selection of the pixels under that region. */
module Raster {

  /** The largest value of an 8-bit channel. */
  const MaxIntensity := 255

  /** Gray values strictly above this are white. */
  const WhiteThreshold := 200

  /** The value the binary threshold writes into white cells of the mask. */
  const WhiteValue := 255

  /** A numpy 2-D array: every row is as long as the first. */
  predicate Rectangular<T>(g: seq<seq<T>>)
  {
    forall i :: 0 <= i < |g| ==> |g[i]| == |g[0]|
  }

  function Width<T>(g: seq<seq<T>>): nat
  {
    if g == [] then 0 else |g[0]|
  }

  /** ndarray.size: the number of cells, height times width. */
  function Size<T>(g: seq<seq<T>>): nat
  {
    |g| * Width(g)
  }

  /** Two rasters of the same shape, cell for cell. */
  predicate SameShape<T, U>(a: seq<seq<T>>, b: seq<seq<U>>)
  {
    |a| == |b| && forall i :: 0 <= i < |a| ==> |a[i]| == |b[i]|
  }

  /** A single-channel 8-bit image. */
  predicate IsGrayImage(g: seq<seq<int>>)
  {
    Rectangular(g) && forall i, j :: 0 <= i < |g| && 0 <= j < |g[i]| ==> 0 <= g[i][j] <= MaxIntensity
  }

  /** cv2.threshold with THRESH_BINARY: a cell becomes maxValue where the
      source is strictly above thresh, and 0 elsewhere. */
  function Threshold(g: seq<seq<int>>, thresh: int, maxValue: int): (m: seq<seq<int>>)
    requires maxValue != 0
    ensures SameShape(m, g)
    ensures forall i, j :: 0 <= i < |g| && 0 <= j < |g[i]| ==>
              (m[i][j] == maxValue <==> g[i][j] > thresh) && (m[i][j] == 0 <==> g[i][j] <= thresh)
  {
    seq(|g|, i requires 0 <= i < |g| =>
      seq(|g[i]|, j requires 0 <= j < |g[i]| => if g[i][j] > thresh then maxValue else 0))
  }

  /** The white mask of a grayscale image: threshold 200, white value 255. */
  function WhiteMask(gray: seq<seq<int>>): (m: seq<seq<int>>)
    ensures SameShape(m, gray)
  {
    Threshold(gray, WhiteThreshold, WhiteValue)
  }

  /** The cells of one row whose mask cell equals key, left to right. */
  function SelectRow<T>(row: seq<T>, mrow: seq<int>, key: int): seq<T>
    requires |row| == |mrow|
  {
    if row == [] then []
    else (if mrow[0] == key then [row[0]] else []) + SelectRow(row[1..], mrow[1..], key)
  }

  /** Boolean-mask indexing g[mask == key]: the cells of g whose mask cell
      equals key, in row-major order. */
  function Select<T>(g: seq<seq<T>>, mask: seq<seq<int>>, key: int): seq<T>
    requires SameShape(g, mask)
  {
    if g == [] then []
    else SelectRow(g[0], mask[0], key) + Select(g[1..], mask[1..], key)
  }

  /** The number of cells of one mask row equal to key. */
  function CountRow(mrow: seq<int>, key: int): nat
  {
    if mrow == [] then 0 else (if mrow[0] == key then 1 else 0) + CountRow(mrow[1..], key)
  }

  /** The number of cells of a mask equal to key. */
  function CountCells(mask: seq<seq<int>>, key: int): nat
  {
    if mask == [] then 0 else CountRow(mask[0], key) + CountCells(mask[1..], key)
  }

  /** The number of cells of one row whose mask cell equals key and which hold x. */
  function RowOccurrences<T(==)>(row: seq<T>, mrow: seq<int>, key: int, x: T): nat
    requires |row| == |mrow|
  {
    if row == [] then 0
    else (if mrow[0] == key && row[0] == x then 1 else 0) + RowOccurrences(row[1..], mrow[1..], key, x)
  }

  /** The number of cells of g whose mask cell equals key and which hold x. */
  function Occurrences<T(==)>(g: seq<seq<T>>, mask: seq<seq<int>>, key: int, x: T): nat
    requires SameShape(g, mask)
  {
    if g == [] then 0
    else RowOccurrences(g[0], mask[0], key, x) + Occurrences(g[1..], mask[1..], key, x)
  }

  /** The number of positions j where grow exceeds thresh and crow holds c. */
  function RowCountAbove(grow: seq<int>, thresh: int, crow: seq<int>, c: int): nat
    requires |grow| == |crow|
  {
    if grow == [] then 0
    else (if grow[0] > thresh && crow[0] == c then 1 else 0) + RowCountAbove(grow[1..], thresh, crow[1..], c)
  }

  /** The number of cells where g exceeds thresh and codes holds c. */
  function CountAbove(g: seq<seq<int>>, thresh: int, codes: seq<seq<int>>, c: int): nat
    requires SameShape(g, codes)
  {
    if g == [] then 0
    else RowCountAbove(g[0], thresh, codes[0], c) + CountAbove(g[1..], thresh, codes[1..], c)
  }

  /** The gray values of the white pixels, gray[white_mask == 255]. */
  function WhitePixels(gray: seq<seq<int>>): seq<int>
  {
    Select(gray, WhiteMask(gray), WhiteValue)
  }

  /** Every pixel is white. */
  predicate AllWhite(gray: seq<seq<int>>)
  {
    forall i, j :: 0 <= i < |gray| && 0 <= j < |gray[i]| ==> gray[i][j] > WhiteThreshold
  }

  /** No pixel is white. */
  predicate NoneWhite(gray: seq<seq<int>>)
  {
    forall i, j :: 0 <= i < |gray| && 0 <= j < |gray[i]| ==> gray[i][j] <= WhiteThreshold
  }

  // ---------------------------------------------------------------------------
  // Selection picks exactly the cells under the key

  lemma {:induction false} SelectRowMembers<T>(row: seq<T>, mrow: seq<int>, key: int, x: T)
    requires |row| == |mrow|
    ensures x in SelectRow(row, mrow, key) <==> exists j :: 0 <= j < |row| && mrow[j] == key && row[j] == x
  {
    if row != [] {
      SelectRowMembers(row[1..], mrow[1..], key, x);
      if exists j :: 0 <= j < |row| && mrow[j] == key && row[j] == x {
        var j :| 0 <= j < |row| && mrow[j] == key && row[j] == x;
        if j > 0 {
          assert row[1..][j - 1] == x && mrow[1..][j - 1] == key;
        }
      }
      if x in SelectRow(row[1..], mrow[1..], key) {
        var j :| 0 <= j < |row[1..]| && mrow[1..][j] == key && row[1..][j] == x;
        assert mrow[j + 1] == key && row[j + 1] == x;
      }
    }
  }

  /** A value is selected exactly when some cell under the key holds it. */
  lemma {:induction false} SelectMembers<T>(g: seq<seq<T>>, mask: seq<seq<int>>, key: int, x: T)
    requires SameShape(g, mask)
    ensures x in Select(g, mask, key) <==>
            exists i, j :: 0 <= i < |g| && 0 <= j < |g[i]| && mask[i][j] == key && g[i][j] == x
  {
    if g != [] {
      assert SameShape(g[1..], mask[1..]) by {
        forall i | 0 <= i < |g[1..]| ensures |g[1..][i]| == |mask[1..][i]| { assert g[1..][i] == g[i + 1]; }
      }
      SelectRowMembers(g[0], mask[0], key, x);
      SelectMembers(g[1..], mask[1..], key, x);
      if exists i, j :: 0 <= i < |g| && 0 <= j < |g[i]| && mask[i][j] == key && g[i][j] == x {
        var i, j :| 0 <= i < |g| && 0 <= j < |g[i]| && mask[i][j] == key && g[i][j] == x;
        if i > 0 {
          assert g[1..][i - 1][j] == x && mask[1..][i - 1][j] == key;
        }
      }
      if x in Select(g[1..], mask[1..], key) {
        var i, j :| 0 <= i < |g[1..]| && 0 <= j < |g[1..][i]| && mask[1..][i][j] == key && g[1..][i][j] == x;
        assert g[i + 1][j] == x && mask[i + 1][j] == key;
      }
    }
  }

  lemma {:induction false} SelectRowLength<T>(row: seq<T>, mrow: seq<int>, key: int)
    requires |row| == |mrow|
    ensures |SelectRow(row, mrow, key)| == CountRow(mrow, key)
  {
    if row != [] {
      SelectRowLength(row[1..], mrow[1..], key);
    }
  }

  /** As many values are selected as the mask has cells under the key,
      whatever raster they are selected from. */
  lemma {:induction false} SelectLength<T>(g: seq<seq<T>>, mask: seq<seq<int>>, key: int)
    requires SameShape(g, mask)
    ensures |Select(g, mask, key)| == CountCells(mask, key)
  {
    if g != [] {
      assert SameShape(g[1..], mask[1..]) by {
        forall i | 0 <= i < |g[1..]| ensures |g[1..][i]| == |mask[1..][i]| { assert g[1..][i] == g[i + 1]; }
      }
      SelectRowLength(g[0], mask[0], key);
      SelectLength(g[1..], mask[1..], key);
    }
  }

  lemma {:induction false} SelectRowCount<T>(row: seq<T>, mrow: seq<int>, key: int, x: T)
    requires |row| == |mrow|
    ensures multiset(SelectRow(row, mrow, key))[x] == RowOccurrences(row, mrow, key, x)
  {
    if row != [] {
      SelectRowCount(row[1..], mrow[1..], key, x);
      var head: seq<T> := if mrow[0] == key then [row[0]] else [];
      assert multiset(SelectRow(row, mrow, key)) == multiset(head) + multiset(SelectRow(row[1..], mrow[1..], key));
    }
  }

  /** Each value is selected as often as cells under the key hold it, so the
      selection is the cells under the key with their multiplicities. */
  lemma {:induction false} SelectCount<T>(g: seq<seq<T>>, mask: seq<seq<int>>, key: int, x: T)
    requires SameShape(g, mask)
    ensures multiset(Select(g, mask, key))[x] == Occurrences(g, mask, key, x)
  {
    if g != [] {
      assert SameShape(g[1..], mask[1..]) by {
        forall i | 0 <= i < |g[1..]| ensures |g[1..][i]| == |mask[1..][i]| { assert g[1..][i] == g[i + 1]; }
      }
      SelectRowCount(g[0], mask[0], key, x);
      SelectCount(g[1..], mask[1..], key, x);
      assert multiset(Select(g, mask, key)) ==
             multiset(SelectRow(g[0], mask[0], key)) + multiset(Select(g[1..], mask[1..], key));
    }
  }

  lemma {:induction false} RowOccurrencesUnderKey(row: seq<int>, mrow: seq<int>, key: int, x: int)
    requires |row| == |mrow| && forall j :: 0 <= j < |row| && row[j] == x ==> mrow[j] == key
    ensures RowOccurrences(row, mrow, key, x) == CountRow(row, x)
  {
    if row != [] {
      assert forall j :: 0 <= j < |row[1..]| ==> row[1..][j] == row[j + 1] && mrow[1..][j] == mrow[j + 1];
      RowOccurrencesUnderKey(row[1..], mrow[1..], key, x);
    }
  }

  /** When every cell holding x lies under the key, x occurs under the key
      as often as it occurs in g at all. */
  lemma {:induction false} OccurrencesUnderKey(g: seq<seq<int>>, mask: seq<seq<int>>, key: int, x: int)
    requires SameShape(g, mask)
    requires forall i, j :: 0 <= i < |g| && 0 <= j < |g[i]| && g[i][j] == x ==> mask[i][j] == key
    ensures Occurrences(g, mask, key, x) == CountCells(g, x)
  {
    if g != [] {
      assert forall i :: 0 <= i < |g[1..]| ==> g[1..][i] == g[i + 1] && mask[1..][i] == mask[i + 1];
      RowOccurrencesUnderKey(g[0], mask[0], key, x);
      OccurrencesUnderKey(g[1..], mask[1..], key, x);
    }
  }

  lemma {:induction false} RowOccurrencesAbove(crow: seq<int>, mrow: seq<int>, key: int, c: int,
                                             grow: seq<int>, thresh: int)
    requires |crow| == |mrow| == |grow|
    requires forall j :: 0 <= j < |mrow| ==> (mrow[j] == key <==> grow[j] > thresh)
    ensures RowOccurrences(crow, mrow, key, c) == RowCountAbove(grow, thresh, crow, c)
  {
    if crow != [] {
      assert forall j :: 0 <= j < |mrow[1..]| ==> mrow[1..][j] == mrow[j + 1] && grow[1..][j] == grow[j + 1];
      RowOccurrencesAbove(crow[1..], mrow[1..], key, c, grow[1..], thresh);
    }
  }

  /** Under a mask that holds key exactly where g exceeds thresh, c occurs
      under the key as often as cells above thresh carry c. */
  lemma {:induction false} OccurrencesAbove(codes: seq<seq<int>>, mask: seq<seq<int>>, key: int, c: int,
                                          g: seq<seq<int>>, thresh: int)
    requires SameShape(codes, mask) && SameShape(g, mask)
    requires forall i, j :: 0 <= i < |mask| && 0 <= j < |mask[i]| ==> (mask[i][j] == key <==> g[i][j] > thresh)
    ensures SameShape(g, codes)
    ensures Occurrences(codes, mask, key, c) == CountAbove(g, thresh, codes, c)
  {
    if codes != [] {
      assert forall i :: 0 <= i < |mask[1..]| ==>
        mask[1..][i] == mask[i + 1] && g[1..][i] == g[i + 1] && codes[1..][i] == codes[i + 1];
      RowOccurrencesAbove(codes[0], mask[0], key, c, g[0], thresh);
      OccurrencesAbove(codes[1..], mask[1..], key, c, g[1..], thresh);
    }
  }

  // ---------------------------------------------------------------------------
  // Counting cells under the key

  lemma {:induction false} CountRowBounds(mrow: seq<int>, key: int)
    ensures CountRow(mrow, key) <= |mrow|
    ensures CountRow(mrow, key) == |mrow| <==> forall j :: 0 <= j < |mrow| ==> mrow[j] == key
    ensures CountRow(mrow, key) == 0 <==> forall j :: 0 <= j < |mrow| ==> mrow[j] != key
  {
    if mrow != [] {
      CountRowBounds(mrow[1..], key);
      assert forall j :: 1 <= j < |mrow| ==> mrow[j] == mrow[1..][j - 1];
    }
  }

  /** In a rectangular mask at most every cell is under the key; all cells
      are exactly when every cell holds the key, none exactly when none does. */
  lemma {:induction false} CountCellsBounds(mask: seq<seq<int>>, key: int)
    requires Rectangular(mask)
    ensures CountCells(mask, key) <= Size(mask)
    ensures CountCells(mask, key) == Size(mask) <==>
            forall i, j :: 0 <= i < |mask| && 0 <= j < |mask[i]| ==> mask[i][j] == key
    ensures CountCells(mask, key) == 0 <==>
            forall i, j :: 0 <= i < |mask| && 0 <= j < |mask[i]| ==> mask[i][j] != key
  {
    if mask != [] {
      var rest := mask[1..];
      assert Rectangular(rest) by {
        forall i | 0 <= i < |rest| ensures |rest[i]| == |rest[0]| {
          assert rest[i] == mask[i + 1] && rest[0] == mask[1];
        }
      }
      assert Size(rest) == (|mask| - 1) * |mask[0]| by {
        if rest != [] { assert rest[0] == mask[1]; }
      }
      assert Size(mask) == Size(rest) + |mask[0]|;
      CountRowBounds(mask[0], key);
      CountCellsBounds(rest, key);
      assert forall i :: 1 <= i < |mask| ==> mask[i] == rest[i - 1];
    }
  }

  // ---------------------------------------------------------------------------
  // The white region

  /** A gray value is among the white pixels exactly when some pixel holding
      it is strictly above the threshold. */
  lemma WhitePixelMembers(gray: seq<seq<int>>, x: int)
    ensures x in WhitePixels(gray) <==>
            exists i, j :: 0 <= i < |gray| && 0 <= j < |gray[i]| && gray[i][j] == x && x > WhiteThreshold
  {
    var mask := WhiteMask(gray);
    SelectMembers(gray, mask, WhiteValue, x);
    if exists i, j :: 0 <= i < |gray| && 0 <= j < |gray[i]| && gray[i][j] == x && x > WhiteThreshold {
      var i, j :| 0 <= i < |gray| && 0 <= j < |gray[i]| && gray[i][j] == x && x > WhiteThreshold;
      assert mask[i][j] == WhiteValue;
    }
  }

  /** Every white pixel value lies in [201, 255]. */
  lemma WhitePixelRange(gray: seq<seq<int>>)
    requires IsGrayImage(gray)
    ensures forall k :: 0 <= k < |WhitePixels(gray)| ==> WhiteThreshold < WhitePixels(gray)[k] <= MaxIntensity
  {
    forall k | 0 <= k < |WhitePixels(gray)|
      ensures WhiteThreshold < WhitePixels(gray)[k] <= MaxIntensity
    {
      WhitePixelMembers(gray, WhitePixels(gray)[k]);
    }
  }

  /** The number of white pixels is the number of mask cells set to 255;
      it is 0 exactly when no pixel exceeds 200, and the whole image exactly
      when every pixel does. */
  lemma WhiteCount(gray: seq<seq<int>>)
    requires IsGrayImage(gray)
    ensures |WhitePixels(gray)| <= Size(gray)
    ensures |WhitePixels(gray)| == 0 <==> NoneWhite(gray)
    ensures |WhitePixels(gray)| == Size(gray) <==> AllWhite(gray)
  {
    var mask := WhiteMask(gray);
    SelectLength(gray, mask, WhiteValue);
    assert Rectangular(mask) by {
      if mask != [] {
        forall i | 0 <= i < |mask| ensures |mask[i]| == |mask[0]| { }
      }
    }
    assert Size(mask) == Size(gray);
    CountCellsBounds(mask, WhiteValue);
  }

  /** The white pixels hold each gray value above 200 as often as the image
      does, and no other value. */
  lemma WhitePixelCount(gray: seq<seq<int>>, x: int)
    ensures multiset(WhitePixels(gray))[x] == if x > WhiteThreshold then CountCells(gray, x) else 0
  {
    var mask := WhiteMask(gray);
    if x > WhiteThreshold {
      SelectCount(gray, mask, WhiteValue, x);
      OccurrencesUnderKey(gray, mask, WhiteValue, x);
    } else {
      WhitePixelMembers(gray, x);
    }
  }

  /** A non-empty white region comes from a non-empty image. */
  lemma WhiteRegionInImage(gray: seq<seq<int>>)
    requires IsGrayImage(gray) && WhitePixels(gray) != []
    ensures 0 < |WhitePixels(gray)| <= Size(gray)
  {
    WhiteCount(gray);
  }

  lemma {:induction false} CountRowMonotone(a: seq<int>, b: seq<int>, key: int)
    requires |a| == |b| && forall j :: 0 <= j < |a| && a[j] == key ==> b[j] == key
    ensures CountRow(a, key) <= CountRow(b, key)
  {
    if a != [] {
      assert forall j :: 0 <= j < |a[1..]| ==> a[1..][j] == a[j + 1] && b[1..][j] == b[j + 1];
      CountRowMonotone(a[1..], b[1..], key);
    }
  }

  lemma {:induction false} CountCellsMonotone(a: seq<seq<int>>, b: seq<seq<int>>, key: int)
    requires SameShape(a, b)
    requires forall i, j :: 0 <= i < |a| && 0 <= j < |a[i]| && a[i][j] == key ==> b[i][j] == key
    ensures CountCells(a, key) <= CountCells(b, key)
  {
    if a != [] {
      assert forall i :: 0 <= i < |a[1..]| ==> a[1..][i] == a[i + 1] && b[1..][i] == b[i + 1];
      CountRowMonotone(a[0], b[0], key);
      CountCellsMonotone(a[1..], b[1..], key);
    }
  }

  /** Turning more pixels white never shrinks the white region. */
  lemma WhiteCountMonotone(gray: seq<seq<int>>, brighter: seq<seq<int>>)
    requires SameShape(gray, brighter)
    requires forall i, j :: 0 <= i < |gray| && 0 <= j < |gray[i]| && gray[i][j] > WhiteThreshold ==>
               brighter[i][j] > WhiteThreshold
    ensures |WhitePixels(gray)| <= |WhitePixels(brighter)|
  {
    SelectLength(gray, WhiteMask(gray), WhiteValue);
    SelectLength(brighter, WhiteMask(brighter), WhiteValue);
    CountCellsMonotone(WhiteMask(gray), WhiteMask(brighter), WhiteValue);
  }
}
