/** The change metric shared by calibration and capture: OpenCV's
    `absdiff`, a binary `threshold` at the per-pixel delta, and
    `countNonZero / size * 100`. */
module ChangeDetection {
  import opened Basics
  import opened Grids

  /** The per-pixel delta both capture loops use (`change_threshold = 5`). */
  const PixelDelta: int := 5

  function Abs(d: int): nat
  {
    if d < 0 then -d else d
  }

  /** A pixel counts as changed when its absolute difference strictly exceeds
      the delta (THRESH_BINARY keeps values `> thresh`). */
  predicate PixelChanged(p: int, q: int, delta: int)
  {
    Abs(p - q) > delta
  }

  /** Changed pixels among the first `j` pixels of a row pair. */
  function CountRow(a: seq<int>, b: seq<int>, delta: int, j: nat): (n: nat)
    requires |a| == |b| && j <= |a|
    ensures n <= j
  {
    if j == 0 then 0
    else CountRow(a, b, delta, j - 1) + (if PixelChanged(a[j - 1], b[j - 1], delta) then 1 else 0)
  }

  /** A row count is zero exactly when no pixel of the row changed. */
  lemma {:induction false} CountRowZeroIff(a: seq<int>, b: seq<int>, delta: int, j: nat)
    requires |a| == |b| && j <= |a|
    ensures CountRow(a, b, delta, j) == 0 <==> forall k | 0 <= k < j :: !PixelChanged(a[k], b[k], delta)
  {
    if j > 0 {
      CountRowZeroIff(a, b, delta, j - 1);
    }
  }

  /** A row count is the row's length exactly when every pixel changed. */
  lemma {:induction false} CountRowFullIff(a: seq<int>, b: seq<int>, delta: int, j: nat)
    requires |a| == |b| && j <= |a|
    ensures CountRow(a, b, delta, j) == j <==> forall k | 0 <= k < j :: PixelChanged(a[k], b[k], delta)
  {
    if j > 0 {
      CountRowFullIff(a, b, delta, j - 1);
    }
  }

  /** Changed pixels over the first `i` rows: `countNonZero` of the thresholded
      difference restricted to those rows. */
  function CountRows(a: Grid, b: Grid, delta: int, i: nat): nat
    requires SameShape(a, b) && i <= |a|
  {
    if i == 0 then 0
    else CountRows(a, b, delta, i - 1) + CountRow(a[i - 1], b[i - 1], delta, Cols(a))
  }

  /** The first `i` rows hold at most `i` rows' worth of changed pixels. */
  lemma {:induction false} CountRowsAtMost(a: Grid, b: Grid, delta: int, i: nat)
    requires SameShape(a, b) && i <= |a|
    ensures CountRows(a, b, delta, i) <= i * Cols(a)
  {
    if i > 0 {
      CountRowsAtMost(a, b, delta, i - 1);
      assert (i - 1) * Cols(a) + Cols(a) == i * Cols(a);
    }
  }

  function CountChanged(a: Grid, b: Grid, delta: int): nat
    requires SameShape(a, b)
  {
    CountRows(a, b, delta, |a|)
  }

  /** No pixel of the first `i` rows changed exactly when their count is zero. */
  lemma {:induction false} CountRowsZeroIff(a: Grid, b: Grid, delta: int, i: nat)
    requires SameShape(a, b) && i <= |a|
    ensures CountRows(a, b, delta, i) == 0 <==>
      forall r, j | 0 <= r < i && 0 <= j < Cols(a) :: !PixelChanged(a[r][j], b[r][j], delta)
  {
    if i > 0 {
      CountRowsZeroIff(a, b, delta, i - 1);
      CountRowZeroIff(a[i - 1], b[i - 1], delta, Cols(a));
    }
  }

  /** Every pixel of the first `i` rows changed exactly when their count is
      the number of pixels in them. */
  lemma {:induction false} CountRowsFullIff(a: Grid, b: Grid, delta: int, i: nat)
    requires SameShape(a, b) && i <= |a|
    ensures CountRows(a, b, delta, i) == i * Cols(a) <==>
      forall r, j | 0 <= r < i && 0 <= j < Cols(a) :: PixelChanged(a[r][j], b[r][j], delta)
  {
    if i > 0 {
      CountRowsFullIff(a, b, delta, i - 1);
      CountRowsAtMost(a, b, delta, i - 1);
      CountRowFullIff(a[i - 1], b[i - 1], delta, Cols(a));
      var c := Cols(a);
      assert (i - 1) * c + c == i * c;
      assert CountRow(a[i - 1], b[i - 1], delta, c) <= c;
    }
  }

  /** A count of at most `size` pixels is between 0 and 100 per cent of them,
      0 only for no pixel and 100 only for all of them. */
  lemma PercentBounds(n: real, size: real)
    requires 0.0 <= n <= size && size > 0.0
    ensures 0.0 <= n / size * 100.0 <= 100.0
    ensures n / size * 100.0 == 0.0 <==> n == 0.0
    ensures n / size * 100.0 == 100.0 <==> n == size
  {
    QuotientAtMostOne(n, size);
    var q := n / size;
    assert q * size == n;
    if n == size {
      assert q == 1.0;
    }
  }

  /** The first `i` rows of both grids have `cols` pixels each. */
  predicate RowsOfWidth(a: Grid, b: Grid, cols: nat, i: nat)
    requires i <= |a| && i <= |b|
  {
    i == 0 || (|a[i - 1]| == cols && |b[i - 1]| == cols && RowsOfWidth(a, b, cols, i - 1))
  }

  lemma {:induction false} RowsOfWidthIff(a: Grid, b: Grid, cols: nat, i: nat)
    requires i <= |a| && i <= |b|
    ensures RowsOfWidth(a, b, cols, i) <==> forall r | 0 <= r < i :: |a[r]| == cols && |b[r]| == cols
  {
    if i > 0 {
      RowsOfWidthIff(a, b, cols, i - 1);
    }
  }

  /** Two grids OpenCV can compare: the same number of rows, every row of
      either as wide as the first, and at least one pixel. */
  predicate Comparable(a: Grid, b: Grid)
  {
    |a| == |b| && |a| > 0 && Cols(a) > 0 && RowsOfWidth(a, b, Cols(a), |a|)
  }

  /** Comparable grids are exactly those of one common, non-empty shape. */
  lemma ComparableIff(a: Grid, b: Grid)
    ensures Comparable(a, b) <==> SameShape(a, b) && Size(a) > 0
  {
    if |a| == |b| {
      RowsOfWidthIff(a, b, Cols(a), |a|);
    }
    if |a| > 0 && Cols(a) > 0 {
      assert Size(a) >= Cols(a);
    }
  }

  /** Two grids of one shape with at least one pixel can be compared. */
  lemma ShapedComparable(a: Grid, b: Grid, rows: nat, cols: nat)
    requires Shaped(a, rows, cols) && Shaped(b, rows, cols) && rows > 0 && cols > 0
    ensures Comparable(a, b)
  {
    assert Cols(a) == cols;
    SizeOfShaped(a, rows, cols);
    ComparableIff(a, b);
  }

  /** `100 * changed / total` as an exact rational. OpenCV refuses grids that
      are not comparable; those are given 0 here, and no capture compares
      them (its frames share one shape and an empty crop fails earlier). */
  function ChangePercent(a: Grid, b: Grid, delta: int): (pct: real)
    ensures 0.0 <= pct <= 100.0
  {
    if Comparable(a, b) then
      ComparableIff(a, b);
      CountRowsAtMost(a, b, delta, |a|);
      PercentBounds(CountChanged(a, b, delta) as real, Size(a) as real);
      CountChanged(a, b, delta) as real / Size(a) as real * 100.0
    else 0.0
  }

  /** No changed pixel at all exactly when the percentage is zero. */
  lemma NoChangeIff(a: Grid, b: Grid, delta: int)
    requires SameShape(a, b) && Size(a) > 0
    ensures ChangePercent(a, b, delta) == 0.0 <==>
      forall r, j | 0 <= r < |a| && 0 <= j < Cols(a) :: !PixelChanged(a[r][j], b[r][j], delta)
  {
    ComparableIff(a, b);
    CountRowsAtMost(a, b, delta, |a|);
    PercentBounds(CountChanged(a, b, delta) as real, Size(a) as real);
    CountRowsZeroIff(a, b, delta, |a|);
  }

  /** Every pixel changed exactly when the percentage is 100. */
  lemma FullChangeIff(a: Grid, b: Grid, delta: int)
    requires SameShape(a, b) && Size(a) > 0
    ensures ChangePercent(a, b, delta) == 100.0 <==>
      forall r, j | 0 <= r < |a| && 0 <= j < Cols(a) :: PixelChanged(a[r][j], b[r][j], delta)
  {
    ComparableIff(a, b);
    CountRowsAtMost(a, b, delta, |a|);
    PercentBounds(CountChanged(a, b, delta) as real, Size(a) as real);
    CountRowsFullIff(a, b, delta, |a|);
  }

  /** A grid compared with itself shows no change. */
  lemma IdenticalNoChange(a: Grid, delta: int)
    requires delta >= 0
    ensures ChangePercent(a, a, delta) == 0.0
  {
    ComparableIff(a, a);
    if Comparable(a, a) {
      NoChangeIff(a, a, delta);
    }
  }

  /** The row count does not depend on the order of the two rows. */
  lemma {:induction false} CountRowSymmetric(a: seq<int>, b: seq<int>, delta: int, j: nat)
    requires |a| == |b| && j <= |a|
    ensures CountRow(a, b, delta, j) == CountRow(b, a, delta, j)
  {
    if j > 0 {
      CountRowSymmetric(a, b, delta, j - 1);
      assert Abs(a[j - 1] - b[j - 1]) == Abs(b[j - 1] - a[j - 1]);
    }
  }

  lemma {:induction false} CountRowsSymmetric(a: Grid, b: Grid, delta: int, i: nat)
    requires SameShape(a, b) && i <= |a|
    ensures SameShape(b, a)
    ensures CountRows(a, b, delta, i) == CountRows(b, a, delta, i)
  {
    if i > 0 {
      CountRowsSymmetric(a, b, delta, i - 1);
      CountRowSymmetric(a[i - 1], b[i - 1], delta, Cols(a));
    }
  }

  /** Comparing the baseline with a frame or the frame with the baseline gives
      the same percentage (`absdiff` is symmetric). */
  lemma ChangePercentSymmetric(a: Grid, b: Grid, delta: int)
    ensures Comparable(a, b) <==> Comparable(b, a)
    ensures ChangePercent(a, b, delta) == ChangePercent(b, a, delta)
  {
    ComparableIff(a, b);
    ComparableIff(b, a);
    if Comparable(a, b) {
      CountRowsSymmetric(a, b, delta, |a|);
    }
  }
}
