/**
 * The server's GET handler body: sample an x_num by y_num grid over the
 * requested rectangle, run the escape-time loop at every point and store the
 * resulting pixels row by row in a flat byte buffer.
 */
module GridRender {
  import opened EscapeTime
  import opened PixelMap
  import opened RangeSampler
  import opened Arith

  /**
   * The parameters of /mandelbrot/:x_min/:y_min/:x_max/:y_max/:x_num/:y_num/:n_lim,
   * in route order, after parsing.
   */
  datatype RenderRequest = RenderRequest(
    xMin: real, yMin: real, xMax: real, yMax: real,
    xNum: int, yNum: int, nLim: int)

  /**
   * Both sides of the grid have at least one point. A side of one point is
   * sampled at its min, the way the client's linspace samples it; the handler
   * as written samples NaN there instead (see `CoordsAsWritten`).
   */
  predicate Renderable(p: RenderRequest) {
    p.xNum >= 1 && p.yNum >= 1
  }

  /**
   * The x coordinates of the grid columns, from x_min to x_max:
   * createEqualRange(x_min, x_max, x_num - 1) for two points or more.
   */
  function XCoords(p: RenderRequest): (xs: seq<real>)
    requires Renderable(p)
    ensures |xs| == p.xNum && xs[0] == p.xMin
    ensures p.xNum >= 2 ==> xs[p.xNum - 1] == p.xMax
  {
    Linspace(p.xMin, p.xMax, p.xNum)
  }

  /** The y coordinates of the grid rows, from y_min to y_max. */
  function YCoords(p: RenderRequest): (ys: seq<real>)
    requires Renderable(p)
    ensures |ys| == p.yNum && ys[0] == p.yMin
    ensures p.yNum >= 2 ==> ys[p.yNum - 1] == p.yMax
  {
    Linspace(p.yMin, p.yMax, p.yNum)
  }

  /** The byte for grid point (xi, yi): its escape count, mapped to a pixel. */
  function CellByte(p: RenderRequest, xi: int, yi: int): int
    requires Renderable(p) && 0 <= xi < p.xNum && 0 <= yi < p.yNum
  {
    PixelByte(Mandelbrot(XCoords(p)[xi], YCoords(p)[yi], p.nLim), p.nLim)
  }

  /** The byte at flat position k of a rendered buffer: that of column k % x_num of row k / x_num. */
  function CellAt(p: RenderRequest, k: int): (b: int)
    requires Renderable(p) && 0 <= k < p.xNum * p.yNum
    ensures 0 <= b < SizeOfUint8
  {
    RowOfIndex(k, p.xNum, p.yNum);
    CellByte(p, k % p.xNum, k / p.xNum)
  }

  /**
   * The handler body: a zero-filled buffer of x_num * y_num bytes, written at
   * a running index with y in the outer loop and x in the inner one, so the
   * byte of point (xi, yi) lands at yi * x_num + xi.
   */
  method Render(p: RenderRequest) returns (data: seq<int>)
    requires Renderable(p)
    ensures |data| == p.xNum * p.yNum
    ensures forall k :: 0 <= k < |data| ==> data[k] == CellAt(p, k)
  {
    var xs := XCoords(p);
    var ys := YCoords(p);
    data := seq(p.xNum * p.yNum, _ => 0);
    var ind := 0;
    var yi := 0;
    while yi < |ys|
      invariant 0 <= yi <= |ys|
      invariant ind == yi * p.xNum
      invariant |data| == p.xNum * p.yNum
      invariant forall k :: 0 <= k < ind ==> data[k] == CellAt(p, k)
    {
      MulMonotone(yi, p.yNum, p.xNum);
      data, ind := RenderRow(p, xs, ys, yi, data, ind);
      yi := yi + 1;
    }
    assert ind == |data|;
  }

  /**
   * The inner loop of the handler: the bytes of row yi, columns 0 .. x_num - 1,
   * written from the running index yi * x_num on.
   */
  method RenderRow(p: RenderRequest, xs: seq<real>, ys: seq<real>, yi: int, data: seq<int>, ind: int)
    returns (data': seq<int>, ind': int)
    requires Renderable(p) && xs == XCoords(p) && ys == YCoords(p) && 0 <= yi < p.yNum
    requires |data| == p.xNum * p.yNum && ind == yi * p.xNum <= |data|
    requires forall k :: 0 <= k < ind ==> data[k] == CellAt(p, k)
    ensures |data'| == |data| && ind' == (yi + 1) * p.xNum <= |data|
    ensures forall k :: 0 <= k < ind' ==> data'[k] == CellAt(p, k)
  {
    MulMonotone(yi + 1, p.yNum, p.xNum);
    data' := data;
    ind' := ind;
    var xi := 0;
    while xi < |xs|
      invariant 0 <= xi <= |xs|
      invariant ind' == yi * p.xNum + xi
      invariant (yi + 1) * p.xNum <= |data'| == |data|
      invariant forall k :: 0 <= k < ind' ==> data'[k] == CellAt(p, k)
    {
      CellAtPoint(p, xi, yi);
      var iter := Mandelbrot(xs[xi], ys[yi], p.nLim);
      data' := data'[ind' := PixelByte(iter, p.nLim)];
      ind' := ind' + 1;
      xi := xi + 1;
    }
  }

  /** Grid point (xi, yi) is stored at position yi * x_num + xi, inside the buffer. */
  lemma CellAtPoint(p: RenderRequest, xi: int, yi: int)
    requires Renderable(p) && 0 <= xi < p.xNum && 0 <= yi < p.yNum
    ensures 0 <= yi * p.xNum + xi < p.xNum * p.yNum
    ensures CellAt(p, yi * p.xNum + xi) == CellByte(p, xi, yi)
  {
    RowMajorIndex(p.xNum, p.yNum, xi, yi);
  }

  /**
   * The 3 by 3 view of [-2, 1] x [-1, 1] at 256 iterations: the centre sample
   * (-1/2, 0) never escapes and is stored as the brightest byte.
   */
  lemma ClassicViewCentreIsBright()
    ensures CellByte(RenderRequest(-2.0, -1.0, 1.0, 1.0, 3, 3, 256), 1, 1) == 255
  {
    var p := RenderRequest(-2.0, -1.0, 1.0, 1.0, 3, 3, 256);
    PointAt(-2.0, 1.0, 2, 1);
    PointAt(-1.0, 1.0, 2, 1);
    assert XCoords(p)[1] == -0.5;
    assert YCoords(p)[1] == 0.0;
    MinusHalfReachesCap(256);
  }

  /** A number as the handler's arithmetic sees it: a real, or NaN. */
  datatype Number = Finite(value: real) | NaN

  /**
   * createEqualRange(min, max, num - 1) as written, for num >= 1 points. With
   * num = 1 the step (max - min) / 0 is NaN (for max = min) or an infinity,
   * and 0 times either is NaN, so the one point is NaN.
   */
  function CoordsAsWritten(min: real, max: real, num: int): (r: seq<Number>)
    requires num >= 1
    ensures |r| == num
    ensures num == 1 ==> r[0].NaN?
    ensures num >= 2 ==> forall i :: 0 <= i < num ==> r[i] == Finite(Linspace(min, max, num)[i])
  {
    if num == 1 then [NaN]
    else seq(num, i requires 0 <= i < num => Finite(CreateEqualRange(min, max, num - 1)[i]))
  }

  /**
   * mandelbrot(x, y, n_lim) on coordinates that may be NaN. With a NaN
   * coordinate the first pass sets z to c, whose modulus is NaN; `NaN <= 2` is
   * false, so the loop stops with n = 1.
   */
  function MandelbrotAsWritten(x: Number, y: Number, nLim: int): (n: int)
    ensures 1 <= n && (nLim >= 1 ==> n <= nLim)
    ensures x.NaN? || y.NaN? ==> n == 1
  {
    if x.Finite? && y.Finite? then Mandelbrot(x.value, y.value, nLim) else 1
  }

  /** The byte the handler as written stores for grid point (xi, yi). */
  function CellByteAsWritten(p: RenderRequest, xi: int, yi: int): int
    requires Renderable(p) && 0 <= xi < p.xNum && 0 <= yi < p.yNum
  {
    PixelByte(MandelbrotAsWritten(CoordsAsWritten(p.xMin, p.xMax, p.xNum)[xi],
                                  CoordsAsWritten(p.yMin, p.yMax, p.yNum)[yi], p.nLim), p.nLim)
  }

  /** With at least two points on each side, the handler as written stores the pixels of the grid. */
  lemma AsWrittenAgrees(p: RenderRequest, xi: int, yi: int)
    requires p.xNum >= 2 && p.yNum >= 2 && 0 <= xi < p.xNum && 0 <= yi < p.yNum
    ensures CellByteAsWritten(p, xi, yi) == CellByte(p, xi, yi)
  {
  }

  /** A count of 1 is stored as byte 0, whatever the cap. */
  lemma FirstPassIsBlack(nLim: int)
    ensures PixelByte(1, nLim) == 0
  {
  }

  /**
   * With a side of one point, the handler as written samples NaN there, and
   * every byte it stores is 0: the block comes back black.
   */
  lemma OnePointSideIsBlack(p: RenderRequest, xi: int, yi: int)
    requires Renderable(p) && (p.xNum == 1 || p.yNum == 1)
    requires 0 <= xi < p.xNum && 0 <= yi < p.yNum
    ensures CellByteAsWritten(p, xi, yi) == 0
  {
    FirstPassIsBlack(p.nLim);
  }
}
