/** Grayscale images as rectangular grids of intensities, and numpy's basic
    slicing `g[y1:y2, x1:x2]` on them. */
module Grids {

  /** One grayscale image: a sequence of rows of intensities (0..255). */
  type Grid = seq<seq<int>>

  predicate Shaped(g: Grid, rows: nat, cols: nat)
  {
    |g| == rows && forall i | 0 <= i < |g| :: |g[i]| == cols
  }

  /** Every frame of a video has the video's dimensions. */
  predicate AllShaped(gs: seq<Grid>, rows: nat, cols: nat)
  {
    forall k | 0 <= k < |gs| :: Shaped(gs[k], rows, cols)
  }

  function Cols(g: Grid): nat
  {
    if |g| == 0 then 0 else |g[0]|
  }

  /** The number of pixels, numpy's `size` for a 2-D array. */
  function Size(g: Grid): nat
  {
    |g| * Cols(g)
  }

  predicate SameShape(a: Grid, b: Grid)
  {
    Shaped(a, |a|, Cols(a)) && Shaped(b, |a|, Cols(a))
  }

  /** Where a Python slice bound lands in a sequence of length n: a negative
      bound counts from the end, and the result is clamped into [0, n]. */
  function SliceIndex(i: int, n: nat): (r: nat)
    ensures r <= n
    ensures 0 <= i <= n ==> r == i
    ensures i > n ==> r == n
    ensures i < 0 ==> r == if i + n < 0 then 0 else i + n
  {
    if i < 0 then (if i + n < 0 then 0 else i + n)
    else if i > n then n
    else i
  }

  /** The length of the Python slice `s[lo:hi]` of a sequence of length n. */
  function SliceLen(lo: int, hi: int, n: nat): nat
  {
    var a, b := SliceIndex(lo, n), SliceIndex(hi, n);
    if a < b then b - a else 0
  }

  /** Python's `s[lo:hi]`: never raises, whatever the bounds. */
  function Slice<T>(s: seq<T>, lo: int, hi: int): (r: seq<T>)
    ensures |r| == SliceLen(lo, hi, |s|)
    ensures forall k | 0 <= k < |r| :: r[k] == s[SliceIndex(lo, |s|) + k]
  {
    var a, b := SliceIndex(lo, |s|), SliceIndex(hi, |s|);
    if a < b then s[a..b] else []
  }

  /** numpy's `g[y1:y2, x1:x2]`: rows first, then the columns of each row. */
  function Crop(g: Grid, y1: int, y2: int, x1: int, x2: int): (r: Grid)
    ensures |r| == SliceLen(y1, y2, |g|)
    ensures forall i | 0 <= i < |r| :: r[i] == Slice(g[SliceIndex(y1, |g|) + i], x1, x2)
  {
    var rows := Slice(g, y1, y2);
    seq(|rows|, i requires 0 <= i < |rows| => Slice(rows[i], x1, x2))
  }

  /** On a rows-by-cols grid the crop is a rectangle whose dimensions depend
      only on the bounds and the grid's dimensions, and whose pixels are the
      grid's pixels shifted by the normalised top-left corner. */
  lemma CropShape(g: Grid, rows: nat, cols: nat, y1: int, y2: int, x1: int, x2: int)
    requires Shaped(g, rows, cols)
    ensures Shaped(Crop(g, y1, y2, x1, x2), SliceLen(y1, y2, rows), SliceLen(x1, x2, cols))
    ensures forall i, j | 0 <= i < SliceLen(y1, y2, rows) && 0 <= j < SliceLen(x1, x2, cols) ::
      Crop(g, y1, y2, x1, x2)[i][j] == g[SliceIndex(y1, rows) + i][SliceIndex(x1, cols) + j]
  {
  }

  /** The shape part of `CropShape` alone. */
  lemma CropShaped(g: Grid, rows: nat, cols: nat, y1: int, y2: int, x1: int, x2: int)
    requires Shaped(g, rows, cols)
    ensures Shaped(Crop(g, y1, y2, x1, x2), SliceLen(y1, y2, rows), SliceLen(x1, x2, cols))
  {
    CropShape(g, rows, cols, y1, y2, x1, x2);
  }

  /** Cropping every frame of a video with the same bounds gives frames that
      all have one and the same shape. */
  function CropAll(gs: seq<Grid>, y1: int, y2: int, x1: int, x2: int): (r: seq<Grid>)
    ensures |r| == |gs|
    ensures forall k | 0 <= k < |gs| :: r[k] == Crop(gs[k], y1, y2, x1, x2)
  {
    seq(|gs|, k requires 0 <= k < |gs| => Crop(gs[k], y1, y2, x1, x2))
  }

  lemma CropAllShaped(gs: seq<Grid>, rows: nat, cols: nat, y1: int, y2: int, x1: int, x2: int)
    requires AllShaped(gs, rows, cols)
    ensures AllShaped(CropAll(gs, y1, y2, x1, x2), SliceLen(y1, y2, rows), SliceLen(x1, x2, cols))
  {
    forall k | 0 <= k < |gs|
      ensures Shaped(CropAll(gs, y1, y2, x1, x2)[k], SliceLen(y1, y2, rows), SliceLen(x1, x2, cols))
    {
      CropShape(gs[k], rows, cols, y1, y2, x1, x2);
    }
  }

  /** A rows-by-cols grid has no pixel exactly when one dimension is zero. */
  lemma SizeOfShaped(g: Grid, rows: nat, cols: nat)
    requires Shaped(g, rows, cols)
    ensures Size(g) == 0 <==> rows == 0 || cols == 0
  {
    if rows > 0 {
      assert Cols(g) == cols;
      if cols > 0 {
        assert Size(g) == rows * cols;
        assert rows * cols >= 1 * cols;
      }
    }
  }
}
