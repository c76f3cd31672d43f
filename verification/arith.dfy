/**
 * Small facts about integer multiplication, division and remainder that the
 * buffer-layout proofs lean on.
 */
module Arith {

  /** A factor of at least 1 does not shrink a positive number. */
  lemma MulAtLeast(d: int, w: int)
    requires d >= 1 && w > 0
    ensures d * w >= w
  {
    assert d * w == (d - 1) * w + w;
  }

  /** Multiplying by a non-negative factor keeps order. */
  lemma MulMonotone(a: int, b: int, w: int)
    requires a <= b && w >= 0
    ensures a * w <= b * w
  {
    assert b * w - a * w == (b - a) * w;
  }

  /** For a positive factor b, b * x < b * y only when x < y. */
  lemma MulStrictCancel(b: int, x: int, y: int)
    requires b > 0 && b * x < b * y
    ensures x < y
  {
    assert b * (y - x) > 0;
  }

  /** The only multiple of w strictly between -w and w is 0. */
  lemma MulBoundedIsZero(d: int, w: int)
    requires w > 0 && -w < d * w < w
    ensures d == 0
  {
    if d >= 1 {
      MulAtLeast(d, w);
    } else if d <= -1 {
      MulAtLeast(-d, w);
    }
  }

  /** A number is its quotient times the divisor plus its remainder. */
  lemma DivModSplit(k: int, w: int)
    requires w > 0
    ensures k == (k / w) * w + k % w
  {
  }

  /** Quotient and remainder are determined by k == q * w + r with 0 <= r < w. */
  lemma DivModUnique(k: int, w: int, q: int, r: int)
    requires w > 0 && 0 <= r < w && k == q * w + r
    ensures k / w == q && k % w == r
  {
    var q' := k / w;
    var r' := k % w;
    assert (q - q') * w == r' - r;
    MulBoundedIsZero(q - q', w);
  }

  /**
   * Position yi * w + xi of a w by h row-major buffer lies inside it and reads
   * back as row yi, column xi.
   */
  lemma RowMajorIndex(w: int, h: int, xi: int, yi: int)
    requires 0 <= xi < w && 0 <= yi < h
    ensures 0 <= yi * w + xi < w * h
    ensures (yi * w + xi) / w == yi && (yi * w + xi) % w == xi
  {
    MulMonotone(yi + 1, h, w);
    MulMonotone(0, yi, w);
    DivModUnique(yi * w + xi, w, yi, xi);
  }

  /** Every position of a w by h buffer belongs to a row below h. */
  lemma RowOfIndex(k: int, w: int, h: int)
    requires w > 0 && 0 <= k < w * h
    ensures 0 <= k / w < h
  {
    assert (k / w) * w <= k < h * w;
    MulStrictCancel(w, k / w, h);
  }

  /** Adding w to a multiple of w gives a multiple of w. */
  lemma AddMultiple(k: int, w: int)
    requires w > 0 && k % w == 0
    ensures (k + w) % w == 0
  {
    DivModSplit(k, w);
    DivModUnique(k + w, w, k / w + 1, 0);
  }

  /** A multiple of d * w is a multiple of w. */
  lemma MultipleOfProduct(n: int, d: int, w: int)
    requires d >= 1 && w >= 1 && n % (d * w) == 0
    ensures n % w == 0
  {
    MulAtLeast(d, w);
    DivModSplit(n, d * w);
    var k := n / (d * w);
    assert n == (k * d) * w;
    DivModUnique(n, w, k * d, 0);
  }

  /**
   * Of the multiples of w below n, only the last one, n - n % w, is followed
   * by fewer than w numbers up to n.
   */
  lemma MultipleStep(k: int, w: int, n: int)
    requires w >= 1 && k % w == 0 && 0 <= k < n
    ensures k <= n - n % w
    ensures k + w <= n <==> k != n - n % w
  {
    DivModSplit(k, w);
    DivModSplit(n, w);
    var a := k / w;
    var q := n / w;
    if a < q {
      MulMonotone(a + 1, q, w);
    } else {
      MulMonotone(q, a, w);
      assert (a - q) * w == a * w - q * w;
      MulBoundedIsZero(a - q, w);
    }
  }
}
