/**
 * The escape-time engine of the server: the recurrence z |-> z^2 + c and the
 * do-while loop that counts its iterations until the orbit leaves the disc of
 * radius 2 or the iteration cap is reached.
 *
 * Coordinates are exact reals; floating-point rounding is not modelled.
 */
module EscapeTime {

  /** A complex number x + iy. */
  datatype Complex = Complex(x: real, y: real)

  const Zero: Complex := Complex(0.0, 0.0)

  /** Squared modulus |z|^2. */
  function NormSq(z: Complex): real {
    var Complex(a, b) := z;
    a * a + b * b
  }

  /** Complex addition, componentwise. */
  function Add(u: Complex, v: Complex): Complex {
    var Complex(a, b) := u;
    var Complex(p, q) := v;
    Complex(a + p, b + q)
  }

  /** Complex multiplication; the reference definition that `Square` is checked against. */
  function Mul(u: Complex, v: Complex): Complex {
    var Complex(a, b) := u;
    var Complex(p, q) := v;
    Complex(a * p - b * q, a * q + b * p)
  }

  /**
   * complexSquare: the square of z, computed as (a^2 - b^2, 2ab); it agrees
   * with complex multiplication of z by itself.
   */
  function Square(z: Complex): (w: Complex)
    ensures w == Mul(z, z)
  {
    var Complex(a, b) := z;
    Complex(a * a - b * b, 2.0 * a * b)
  }

  /** Squaring squares the modulus: |z^2|^2 == (|z|^2)^2. */
  lemma SquareNorm(z: Complex)
    ensures NormSq(Square(z)) == NormSq(z) * NormSq(z)
  {
  }

  /** f_c: one step of the recurrence z |-> z * z + c, adding c componentwise to the square. */
  function Step(c: Complex, z: Complex): (w: Complex)
    ensures w == Add(Mul(z, z), c)
  {
    var Complex(sx, sy) := Square(z);
    var Complex(cx, cy) := c;
    Complex(sx + cx, sy + cy)
  }

  /** The k-th point of the orbit of 0 under f_c: Orbit(c, 0) is 0 and Orbit(c, 1) is c. */
  function Orbit(c: Complex, k: nat): Complex {
    if k == 0 then Zero else Step(c, Orbit(c, k - 1))
  }

  /** The loop's exit test: the modulus is strictly greater than 2. */
  predicate Escaped(z: Complex) {
    NormSq(z) > 4.0
  }

  /** Whether the k-th orbit point of c lies outside the disc of radius 2. */
  predicate EscapesAt(c: Complex, k: nat) {
    Escaped(Orbit(c, k))
  }

  /**
   * The loop compares sqrt(|z|^2) with 2; for the non-negative square root m
   * of |z|^2 that comparison agrees with comparing |z|^2 with 4.
   */
  lemma SqrtTestAgrees(z: Complex, m: real)
    requires m >= 0.0 && m * m == NormSq(z)
    ensures m <= 2.0 <==> !Escaped(z)
  {
    if m > 2.0 {
      assert m * m > 2.0 * m > 4.0;
    } else {
      assert m * m <= 2.0 * m <= 4.0;
    }
  }

  /**
   * What the returned count n means: at least one iteration ran; n never passes
   * the cap (except that one iteration always runs); no orbit point before n left
   * the disc; and when n is below the cap, point n did.
   */
  ghost predicate IsEscapeCount(c: Complex, nLim: int, n: int) {
    && 1 <= n
    && (n <= nLim || n == 1)
    && (forall k: nat :: 1 <= k < n ==> !EscapesAt(c, k))
    && (n < nLim ==> EscapesAt(c, n))
  }

  /** At most one count meets the description, so it pins `mandelbrot` down. */
  lemma EscapeCountUnique(c: Complex, nLim: int, n1: int, n2: int)
    requires IsEscapeCount(c, nLim, n1) && IsEscapeCount(c, nLim, n2)
    ensures n1 == n2
  {
  }

  /**
   * The do-while loop of `mandelbrot`, entered with n iterations done and z the
   * current orbit point: increment n, step z, and repeat while the new point has
   * modulus at most 2 and n is below the cap.
   */
  function Iterate(c: Complex, z: Complex, n: nat, nLim: int): (r: int)
    requires z == Orbit(c, n)
    requires forall k: nat :: 1 <= k <= n ==> !EscapesAt(c, k)
    requires n == 0 || n < nLim
    ensures n < r
    ensures IsEscapeCount(c, nLim, r)
    decreases nLim - n
  {
    var n' := n + 1;
    var z' := Step(c, z);
    if !Escaped(z') && n' < nLim then Iterate(c, z', n', nLim) else n'
  }

  /** mandelbrot(x, y, n_lim): the escape count of c = x + iy. */
  function Mandelbrot(x: real, y: real, nLim: int): (n: int)
    ensures IsEscapeCount(Complex(x, y), nLim, n)
    ensures 1 <= n && (nLim >= 1 ==> n <= nLim) && (nLim <= 1 ==> n == 1)
  {
    Iterate(Complex(x, y), Zero, 0, nLim)
  }

  /**
   * A point whose orbit stays in the disc for every iteration below the cap is
   * reported at the cap: the loop cannot tell it from a point of the set.
   */
  lemma ReachesCapWhenBounded(x: real, y: real, nLim: int)
    requires nLim >= 1
    requires forall k: nat :: 1 <= k < nLim ==> !EscapesAt(Complex(x, y), k)
    ensures Mandelbrot(x, y, nLim) == nLim
  {
  }

  /** The orbit of c = 0 stays at 0. */
  lemma {:induction false} OriginOrbitIsZero(k: nat)
    ensures Orbit(Zero, k) == Zero
  {
    if k > 0 {
      OriginOrbitIsZero(k - 1);
    }
  }

  /** The origin never escapes, so it always runs to the cap. */
  lemma OriginReachesCap(nLim: int)
    requires nLim >= 1
    ensures Mandelbrot(0.0, 0.0, nLim) == nLim
  {
    forall k: nat | 1 <= k < nLim
      ensures !EscapesAt(Zero, k)
    {
      OriginOrbitIsZero(k);
    }
    ReachesCapWhenBounded(0.0, 0.0, nLim);
  }

  /** The orbit of c = -2 is -2, 2, 2, ...: modulus exactly 2 at every step. */
  lemma {:induction false} MinusTwoOrbit(k: nat)
    requires k >= 2
    ensures Orbit(Complex(-2.0, 0.0), k) == Complex(2.0, 0.0)
  {
    var c := Complex(-2.0, 0.0);
    if k == 2 {
      assert Orbit(c, 1) == c;
    } else {
      MinusTwoOrbit(k - 1);
    }
  }

  /** Modulus exactly 2 keeps iterating: c = -2 runs to the cap. */
  lemma MinusTwoReachesCap(nLim: int)
    requires nLim >= 1
    ensures Mandelbrot(-2.0, 0.0, nLim) == nLim
  {
    var c := Complex(-2.0, 0.0);
    forall k: nat | 1 <= k < nLim
      ensures !EscapesAt(c, k)
    {
      if k == 1 {
        assert Orbit(c, 1) == c;
      } else {
        MinusTwoOrbit(k);
      }
    }
    ReachesCapWhenBounded(-2.0, 0.0, nLim);
  }

  /** c = 3 leaves the disc on the first iteration. */
  lemma ThreeEscapesAtOnce(nLim: int)
    ensures Mandelbrot(3.0, 0.0, nLim) == 1
  {
    var c := Complex(3.0, 0.0);
    assert Orbit(c, 1) == c;
    assert EscapesAt(c, 1);
  }

  /**
   * c = 2 has modulus exactly 2 after the first iteration, which does not stop
   * the loop; it escapes on the second.
   */
  lemma TwoEscapesOnSecond(nLim: int)
    requires nLim >= 2
    ensures Mandelbrot(2.0, 0.0, nLim) == 2
  {
    var c := Complex(2.0, 0.0);
    assert Orbit(c, 1) == c;
    assert Orbit(c, 2) == Step(c, c) == Complex(6.0, 0.0);
    assert !EscapesAt(c, 1) && EscapesAt(c, 2);
  }

  /** For c = -1/2 the orbit stays real and inside [-1/2, 0]. */
  lemma {:induction false} HalfOrbitBounded(k: nat)
    ensures Orbit(Complex(-0.5, 0.0), k).y == 0.0
    ensures -0.5 <= Orbit(Complex(-0.5, 0.0), k).x <= 0.0
  {
    if k > 0 {
      HalfOrbitBounded(k - 1);
      var z := Orbit(Complex(-0.5, 0.0), k - 1);
      assert z.x * z.x <= 0.25 by {
        assert z.x * z.x <= (-0.5) * z.x;
      }
    }
  }

  /** c = -1/2 lies in the set: it runs to the cap. */
  lemma MinusHalfReachesCap(nLim: int)
    requires nLim >= 1
    ensures Mandelbrot(-0.5, 0.0, nLim) == nLim
  {
    var c := Complex(-0.5, 0.0);
    forall k: nat | 1 <= k < nLim
      ensures !EscapesAt(c, k)
    {
      HalfOrbitBounded(k);
      var z := Orbit(c, k);
      assert z.x * z.x <= 0.25 by {
        assert z.x * z.x <= (-0.5) * z.x;
      }
    }
    ReachesCapWhenBounded(-0.5, 0.0, nLim);
  }
}
