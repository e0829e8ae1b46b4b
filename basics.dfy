/** Small shared vocabulary: optional values, results with errors, and the
    integer conversion Python's `int()` performs on a float. */
module Basics {

  datatype Option<+T> = None | Some(value: T)

  datatype Result<+T, +E> = Success(value: T) | Failure(error: E)

  /** Python's `int(r)` on a float: truncation toward zero (not the floor). */
  function Trunc(r: real): int
  {
    if r >= 0.0 then r.Floor else -((-r).Floor)
  }

  /** Truncation drops the fractional part: it lands within one of `r`, on the
      side of zero. */
  lemma TruncBounds(r: real)
    ensures r >= 0.0 ==> 0 <= Trunc(r) && Trunc(r) as real <= r < Trunc(r) as real + 1.0
    ensures r < 0.0 ==> Trunc(r) <= 0 && Trunc(r) as real - 1.0 < r <= Trunc(r) as real
  {
  }

  /** Truncation is monotone: a larger real never truncates to a smaller integer. */
  lemma TruncMonotone(a: real, b: real)
    requires a <= b
    ensures Trunc(a) <= Trunc(b)
  {
    TruncBounds(a);
    TruncBounds(b);
    if a >= 0.0 {
      assert Trunc(a) as real <= a <= b;
    } else if b < 0.0 {
      assert -b <= -a;
      assert (-b).Floor <= (-a).Floor by {
        assert (-b).Floor as real <= -b <= -a;
      }
    }
  }

  /** For non-negative reals the truncated parts of a sum never exceed the
      truncated sum. */
  lemma TruncSuperadditive(a: real, b: real)
    requires a >= 0.0 && b >= 0.0
    ensures Trunc(a) + Trunc(b) <= Trunc(a + b)
  {
    TruncBounds(a);
    TruncBounds(b);
    TruncBounds(a + b);
    assert (Trunc(a) + Trunc(b)) as real <= a + b;
  }

  /** Real multiplication keeps signs and order. */
  lemma MulNonneg(a: real, b: real)
    requires a >= 0.0 && b >= 0.0
    ensures a * b >= 0.0
  {
  }

  lemma MulMonotone(a: real, b: real, s: real)
    requires a <= b && s >= 0.0
    ensures a * s <= b * s
  {
    assert b * s - a * s == (b - a) * s;
    MulNonneg(b - a, s);
  }

  /** Real division undoes multiplication. */
  lemma DivSelf(x: real)
    requires x != 0.0
    ensures x / x == 1.0
  {
  }

  lemma MulDivCancel(a: real, b: real)
    requires b != 0.0
    ensures b * (a / b) == a
  {
  }

  lemma DivBelowOne(a: real, b: real)
    requires a > 0.0 && b > 0.0
    ensures a / b > 0.0
    ensures a / b <= 1.0 <==> a <= b
  {
    var q := a / b;
    assert q * b == a;
  }

  lemma QuotientAtMostOne(n: real, size: real)
    requires 0.0 <= n <= size && size > 0.0
    ensures n / size <= 1.0
  {
  }

  /** A quotient of a sum bracketed by `n * lo` and `n * hi` lies between them. */
  lemma MeanBetween(sum: real, n: real, lo: real, hi: real)
    requires n > 0.0 && n * lo < sum <= n * hi
    ensures lo < sum / n <= hi
  {
    var q := sum / n;
    assert q * n == sum;
    assert n * (q - lo) > 0.0;
    assert n * (hi - q) >= 0.0;
  }
}
