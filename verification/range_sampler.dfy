/**
 * The range samplers: the server's createEqualRange, n + 1 evenly spaced
 * coordinates from min to max, and the client's numpy linspace, num of them.
 * Both are over exact reals (the Float32Array narrowing and float64 rounding
 * are not modelled).
 */
module RangeSampler {

  /**
   * createEqualRange(min, max, n): the points min + i * delta for i = 0..n,
   * delta = (max - min) / n. With n = 0 the division has no real value, so n
   * must be at least 1.
   */
  function CreateEqualRange(min: real, max: real, n: int): (r: seq<real>)
    requires n >= 1
    ensures |r| == n + 1
    ensures r[0] == min && r[n] == max
    ensures forall i :: 1 <= i <= n ==> r[i] - r[i - 1] == (max - min) / (n as real)
  {
    var delta := (max - min) / (n as real);
    var r := seq(n + 1, i => min + (i as real) * delta);
    assert r[n] == min + (n as real) * delta;
    r
  }

  /** Each point lies between the endpoints, whichever way round they are. */
  lemma RangeWithinBounds(min: real, max: real, n: int, i: int)
    requires n >= 1 && 0 <= i <= n
    ensures min <= max ==> min <= CreateEqualRange(min, max, n)[i] <= max
    ensures max <= min ==> max <= CreateEqualRange(min, max, n)[i] <= min
  {
    var r := CreateEqualRange(min, max, n);
    var delta := (max - min) / (n as real);
    var offset := (i as real) * delta;
    var span := (n as real) * delta;
    assert r[i] == min + offset;
    assert span == max - min;
    assert span - offset == ((n - i) as real) * delta;
    if min <= max {
      assert delta >= 0.0;
      assert 0.0 <= offset <= span;
    } else {
      assert delta < 0.0;
      assert 0.0 >= offset >= span;
    }
  }

  /**
   * Over an increasing interval the points are strictly increasing: each
   * point is one positive step past the one before.
   */
  lemma {:induction false} RangeIncreasing(min: real, max: real, n: int, i: int, j: int)
    requires n >= 1 && 0 <= i < j <= n && min < max
    ensures CreateEqualRange(min, max, n)[i] < CreateEqualRange(min, max, n)[j]
    decreases j - i
  {
    StepPositive(max - min, n);
    if i + 1 < j {
      RangeIncreasing(min, max, n, i, j - 1);
    }
  }

  /** A positive span divided into n steps gives a positive step. */
  lemma StepPositive(span: real, n: int)
    requires span > 0.0 && n >= 1
    ensures span / (n as real) > 0.0
  {
  }

  /** Point i of a range, in closed form. */
  lemma PointAt(min: real, max: real, n: int, i: int)
    requires n >= 1 && 0 <= i <= n
    ensures CreateEqualRange(min, max, n)[i] == min + (i as real) * ((max - min) / (n as real))
  {
  }

  /** Dividing m equal steps by m gives back one step. */
  lemma StepOfSpan(a: real, b: real, delta: real, m: int)
    requires m >= 1 && b - a == (m as real) * delta
    ensures (b - a) / (m as real) == delta
  {
  }

  /** Moving k steps on from point i of a grid lands on point i + k. */
  lemma ShiftPoint(min: real, delta: real, i: int, k: int)
    ensures (min + (i as real) * delta) + (k as real) * delta == min + ((i + k) as real) * delta
  {
  }

  /** Points i and i + m of a range lie m steps apart. */
  lemma SpanOfSteps(min: real, max: real, n: int, i: int, m: int)
    requires n >= 1 && 0 <= i && 0 <= m && i + m <= n
    ensures CreateEqualRange(min, max, n)[i + m] - CreateEqualRange(min, max, n)[i]
            == (m as real) * ((max - min) / (n as real))
  {
    PointAt(min, max, n, i);
    PointAt(min, max, n, i + m);
    ShiftPoint(min, (max - min) / (n as real), i, m);
  }

  /**
   * Point k of the m-step range from a to b, when b is m steps of size delta
   * past a, is k steps past a.
   */
  lemma ResampledPoint(a: real, b: real, m: int, k: int, delta: real, p: real)
    requires m >= 1 && 0 <= k <= m
    requires b - a == (m as real) * delta && p - a == (k as real) * delta
    ensures CreateEqualRange(a, b, m)[k] == p
  {
    StepOfSpan(a, b, delta, m);
    PointAt(a, b, m, k);
  }

  /**
   * Sampling a sub-interval whose ends are points i and i + m of a range gives
   * exactly the points i..i+m of that range: a block of a grid, resampled on
   * its own, lines up with the grid.
   */
  lemma SubRangeAligned(min: real, max: real, n: int, i: int, m: int)
    requires n >= 1 && m >= 1 && 0 <= i && i + m <= n
    ensures CreateEqualRange(CreateEqualRange(min, max, n)[i], CreateEqualRange(min, max, n)[i + m], m)
            == CreateEqualRange(min, max, n)[i..i + m + 1]
  {
    var r := CreateEqualRange(min, max, n);
    var s := CreateEqualRange(r[i], r[i + m], m);
    forall k | 0 <= k <= m
      ensures s[k] == r[i + k]
    {
      ResampledGridPoint(min, max, n, i, m, k);
    }
    assert |s| == |r[i..i + m + 1]|;
  }

  /**
   * Point k of the m-step range between points i and i + m of a range is
   * point i + k of that range.
   */
  lemma ResampledGridPoint(min: real, max: real, n: int, i: int, m: int, k: int)
    requires n >= 1 && m >= 1 && 0 <= i && i + m <= n && 0 <= k <= m
    ensures CreateEqualRange(CreateEqualRange(min, max, n)[i], CreateEqualRange(min, max, n)[i + m], m)[k]
            == CreateEqualRange(min, max, n)[i + k]
  {
    var r := CreateEqualRange(min, max, n);
    SpanOfSteps(min, max, n, i, m);
    SpanOfSteps(min, max, n, i, k);
    ResampledPoint(r[i], r[i + m], m, k, (max - min) / (n as real), r[i + k]);
  }

  /**
   * numpy's linspace(lo, hi, num): no points for num = 0, the single point lo
   * for num = 1, and otherwise the points createEqualRange(lo, hi, num - 1)
   * gives. A negative num raises ValueError in numpy.
   */
  function Linspace(lo: real, hi: real, num: int): (r: seq<real>)
    requires num >= 0
    ensures |r| == num
    ensures num >= 1 ==> r[0] == lo
    ensures num >= 2 ==> r[num - 1] == hi
  {
    if num == 0 then [] else if num == 1 then [lo] else CreateEqualRange(lo, hi, num - 1)
  }

  /**
   * Resampling the span between points i and i + m of a linspace at m + 1
   * points gives exactly points i..i+m of it, a single point included.
   */
  lemma LinspaceAligned(lo: real, hi: real, num: int, i: int, m: int)
    requires 0 <= i && 0 <= m && i + m < num
    ensures Linspace(Linspace(lo, hi, num)[i], Linspace(lo, hi, num)[i + m], m + 1)
            == Linspace(lo, hi, num)[i..i + m + 1]
  {
    if m >= 1 {
      SubRangeAligned(lo, hi, num - 1, i, m);
    }
  }
}
