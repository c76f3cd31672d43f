/**
 * The pixel mapper of the server: an iteration count in [1, max_iters] is
 * quantised into one of 256 equal-width buckets, and the bucket index is stored
 * into a Uint8Array cell.
 */
module PixelMap {
  import opened Arith

  /** SIZE_OF_UINT8: the number of buckets and of distinct byte values. */
  const SizeOfUint8: int := 256

  /**
   * bucket_size = floor(max_iters / 256). The divisor is positive, so Dafny's
   * Euclidean `/` is the floor that Math.floor computes.
   */
  function BucketSize(maxIters: int): int {
    maxIters / SizeOfUint8
  }

  /**
   * A bucket index p of a count in [1, 256 * b] lies in [0, 255], and the
   * count 256 * b falls in the last bucket.
   */
  lemma BucketIndexInRange(b: int, it: int, p: int)
    requires b >= 1 && b * p <= it - 1 < b * (p + 1)
    requires 1 <= it <= SizeOfUint8 * b
    ensures 0 <= p < SizeOfUint8
    ensures it == SizeOfUint8 * b ==> p == SizeOfUint8 - 1
  {
    MulStrictCancel(b, p, SizeOfUint8);
    MulStrictCancel(b, -1, p + 1);
    if it == SizeOfUint8 * b {
      MulStrictCancel(b, SizeOfUint8 - 1, p + 1);
    }
  }

  /**
   * iterationsToPixel: the index of the bucket that holds `it`, that is the
   * p with bucket_size * p <= it - 1 < bucket_size * (p + 1). A bucket size of
   * 0 would be a division by zero, so max_iters must be at least 256.
   */
  function IterationsToPixel(it: int, maxIters: int): (p: int)
    requires maxIters >= SizeOfUint8
    ensures BucketSize(maxIters) * p <= it - 1 < BucketSize(maxIters) * (p + 1)
    ensures it == 1 ==> p == 0
    ensures maxIters % SizeOfUint8 == 0 && 1 <= it <= maxIters ==> 0 <= p < SizeOfUint8
    ensures maxIters % SizeOfUint8 == 0 && it == maxIters ==> p == SizeOfUint8 - 1
  {
    var b := BucketSize(maxIters);
    var p := (it - 1) / b;
    assert b * p <= it - 1 < b * (p + 1);
    assert maxIters % SizeOfUint8 == 0 && 1 <= it <= maxIters ==>
      0 <= p < SizeOfUint8 && (it == maxIters ==> p == SizeOfUint8 - 1) by {
      if maxIters % SizeOfUint8 == 0 && 1 <= it <= maxIters {
        BucketIndexInRange(b, it, p);
      }
    }
    p
  }

  /** A brighter pixel never comes from fewer iterations. */
  lemma PixelMonotone(it1: int, it2: int, maxIters: int)
    requires maxIters >= SizeOfUint8 && it1 <= it2
    ensures IterationsToPixel(it1, maxIters) <= IterationsToPixel(it2, maxIters)
  {
    var b := BucketSize(maxIters);
    var p1 := IterationsToPixel(it1, maxIters);
    var p2 := IterationsToPixel(it2, maxIters);
    assert b * p1 <= it1 - 1 <= it2 - 1 < b * (p2 + 1);
    MulStrictCancel(b, p1, p2 + 1);
  }

  /**
   * When max_iters is at least 256 but not a multiple of it, the cap itself
   * lands past the last bucket: the result no longer fits in a byte.
   */
  lemma PixelOverflowsUnlessMultiple(maxIters: int)
    requires maxIters >= SizeOfUint8 && maxIters % SizeOfUint8 != 0
    ensures IterationsToPixel(maxIters, maxIters) >= SizeOfUint8
  {
    var b := BucketSize(maxIters);
    var p := IterationsToPixel(maxIters, maxIters);
    assert maxIters == SizeOfUint8 * b + maxIters % SizeOfUint8;
    assert b * SizeOfUint8 <= maxIters - 1 < b * (p + 1);
    MulStrictCancel(b, SizeOfUint8, p + 1);
  }

  /**
   * Storing a number into a Uint8Array cell: an integral value is reduced
   * modulo 2^8 (ECMAScript ToUint8), so in-range values are kept and others wrap.
   */
  function ToUint8(v: int): (b: int)
    ensures 0 <= b < SizeOfUint8
    ensures (v - b) % SizeOfUint8 == 0
    ensures 0 <= v < SizeOfUint8 ==> b == v
  {
    v % SizeOfUint8
  }

  /**
   * The byte that `data[ind] = iterationsToPixel(it, n_lim)` leaves in the
   * buffer for a count the escape loop produced. Below 256 the bucket size is
   * 0 (or negative), the quotient is NaN, an infinity or -0, and a Uint8Array
   * stores each of those as 0; otherwise the bucket index is wrapped by ToUint8.
   */
  function PixelByte(it: int, nLim: int): (b: int)
    requires 1 <= it && (it <= nLim || it == 1)
    ensures 0 <= b < SizeOfUint8
    ensures nLim >= SizeOfUint8 ==> (b - IterationsToPixel(it, nLim)) % SizeOfUint8 == 0
    ensures nLim >= SizeOfUint8 && nLim % SizeOfUint8 == 0 ==> b == IterationsToPixel(it, nLim)
    ensures nLim < SizeOfUint8 ==> b == 0
  {
    if nLim < SizeOfUint8 then 0 else ToUint8(IterationsToPixel(it, nLim))
  }
}
