/**
 * The client's tile bookkeeping: the requests that hand one dim by dim block of
 * the image to each server, and the paste of a returned block into the flat
 * image buffer.
 */
module Tiles {
  import opened Arith
  import opened RangeSampler
  import opened GridRender

  /**
   * One request: the server it goes to and the route parameters, modelled as a
   * record rather than as formatted URL text.
   */
  datatype Url = Url(server: string, request: RenderRequest)

  /** The first image column of server s's block in the cycle starting at col. */
  function FirstColumn(col: int, s: int, dim: int): int {
    col + s * dim
  }

  /** The last image column of server s's block. */
  function LastColumn(col: int, s: int, dim: int): int {
    col + (s + 1) * dim - 1
  }

  /** The blocks of n servers of width dim, starting at col, stay inside [col, col + n * dim). */
  lemma BlocksInRange(col: int, n: int, dim: int)
    requires dim >= 1
    ensures forall s :: 0 <= s < n ==>
      col <= FirstColumn(col, s, dim) <= LastColumn(col, s, dim) < col + n * dim
  {
    forall s | 0 <= s < n
      ensures col <= FirstColumn(col, s, dim) <= LastColumn(col, s, dim) < col + n * dim
    {
      MulMonotone(0, s, dim);
      MulMonotone(s + 1, n, dim);
    }
  }

  /**
   * buildUrls: server s gets columns col + s * dim .. col + (s + 1) * dim - 1
   * and rows row .. row + dim - 1, as a dim by dim request at max_n iterations.
   * Python would raise IndexError on a missing coordinate or server, so every
   * one of them must exist.
   */
  function BuildUrls(xC: seq<real>, yC: seq<real>, row: int, col: int,
                     servers: seq<string>, nServers: int, dim: int, maxN: int): (urls: seq<Url>)
    requires dim >= 1 && 0 <= row && row + dim <= |yC|
    requires 0 <= nServers <= |servers| && 0 <= col && col + nServers * dim <= |xC|
    ensures |urls| == nServers
    ensures forall s :: 0 <= s < nServers ==>
      && 0 <= FirstColumn(col, s, dim) <= LastColumn(col, s, dim) < |xC|
      && urls[s].server == servers[s]
      && urls[s].request.xMin == xC[FirstColumn(col, s, dim)]
      && urls[s].request.xMax == xC[LastColumn(col, s, dim)]
      && urls[s].request.yMin == yC[row]
      && urls[s].request.yMax == yC[row + dim - 1]
      && urls[s].request.xNum == dim && urls[s].request.yNum == dim
      && urls[s].request.nLim == maxN
  {
    BlocksInRange(col, nServers, dim);
    seq(nServers, s requires 0 <= s < nServers =>
      Url(servers[s], RenderRequest(xC[FirstColumn(col, s, dim)], yC[row],
                                    xC[LastColumn(col, s, dim)], yC[row + dim - 1],
                                    dim, dim, maxN)))
  }

  /**
   * Consecutive servers get adjacent, non-overlapping blocks of dim columns:
   * server s + 1 starts right after server s ends.
   */
  lemma BlocksAdjacent(col: int, s: int, dim: int)
    requires dim >= 1
    ensures LastColumn(col, s, dim) + 1 == FirstColumn(col, s + 1, dim)
    ensures LastColumn(col, s, dim) - FirstColumn(col, s, dim) + 1 == dim
  {
    assert (s + 1) * dim == s * dim + dim;
  }

  /**
   * The blocks of different servers never share a column: a column belongs to
   * the block of exactly one server.
   */
  lemma BlocksDisjoint(col: int, s: int, t: int, dim: int, x: int)
    requires dim >= 1 && s != t
    requires FirstColumn(col, s, dim) <= x <= LastColumn(col, s, dim)
    ensures !(FirstColumn(col, t, dim) <= x <= LastColumn(col, t, dim))
  {
    if s < t {
      MulMonotone(s + 1, t, dim);
    } else {
      MulMonotone(t + 1, s, dim);
    }
  }

  /**
   * The whole image as a single request: the view rectangle sampled at numX by
   * numY points.
   */
  function ImageRequest(xMin: real, yMin: real, xMax: real, yMax: real,
                        numX: int, numY: int, maxN: int): RenderRequest {
    RenderRequest(xMin, yMin, xMax, yMax, numX, numY, maxN)
  }

  /**
   * A server that resamples the span of its request at dim points lands
   * exactly on the client's grid: the coordinates it renders are columns
   * FirstColumn .. LastColumn and rows row .. row + dim - 1 of the image.
   */
  lemma TileOnImageGrid(xMin: real, yMin: real, xMax: real, yMax: real, numX: int, numY: int,
                        servers: seq<string>, row: int, col: int, nServers: int, dim: int,
                        maxN: int, s: int)
    requires dim >= 1
    requires 0 <= row && row + dim <= numY
    requires 0 <= nServers <= |servers| && 0 <= col && col + nServers * dim <= numX
    requires 0 <= s < nServers
    ensures var req := BuildUrls(Linspace(xMin, xMax, numX), Linspace(yMin, yMax, numY),
                                 row, col, servers, nServers, dim, maxN)[s].request;
      && Renderable(req)
      && XCoords(req) == Linspace(xMin, xMax, numX)[FirstColumn(col, s, dim)..FirstColumn(col, s, dim) + dim]
      && YCoords(req) == Linspace(yMin, yMax, numY)[row..row + dim]
  {
    var xC := Linspace(xMin, xMax, numX);
    var yC := Linspace(yMin, yMax, numY);
    var req := BuildUrls(xC, yC, row, col, servers, nServers, dim, maxN)[s].request;
    BlocksInRange(col, nServers, dim);
    BlocksAdjacent(col, s, dim);
    TileColumns(xMin, xMax, numX, req, FirstColumn(col, s, dim), dim);
    TileRows(yMin, yMax, numY, req, row, dim);
  }

  /** A request whose x span is columns first .. first + dim - 1 of a grid, at dim points, samples exactly those columns. */
  lemma TileColumns(xMin: real, xMax: real, numX: int, req: RenderRequest, first: int, dim: int)
    requires dim >= 1 && 0 <= first && first + dim <= numX && req.yNum >= 1
    requires req.xNum == dim
    requires req.xMin == Linspace(xMin, xMax, numX)[first]
    requires req.xMax == Linspace(xMin, xMax, numX)[first + dim - 1]
    ensures Renderable(req) && XCoords(req) == Linspace(xMin, xMax, numX)[first..first + dim]
  {
    LinspaceAligned(xMin, xMax, numX, first, dim - 1);
  }

  /** A request whose y span is rows row .. row + dim - 1 of a grid, at dim points, samples exactly those rows. */
  lemma TileRows(yMin: real, yMax: real, numY: int, req: RenderRequest, row: int, dim: int)
    requires dim >= 1 && 0 <= row && row + dim <= numY && req.xNum >= 1
    requires req.yNum == dim
    requires req.yMin == Linspace(yMin, yMax, numY)[row]
    requires req.yMax == Linspace(yMin, yMax, numY)[row + dim - 1]
    ensures Renderable(req) && YCoords(req) == Linspace(yMin, yMax, numY)[row..row + dim]
  {
    LinspaceAligned(yMin, yMax, numY, row, dim - 1);
  }

  /**
   * Pixel (xi, yi) of the block that server s renders is pixel
   * (FirstColumn + xi, row + yi) of the whole image.
   */
  lemma TileCellIsImageCell(xMin: real, yMin: real, xMax: real, yMax: real, numX: int, numY: int,
                            servers: seq<string>, row: int, col: int, nServers: int, dim: int,
                            maxN: int, s: int, xi: int, yi: int)
    requires dim >= 1
    requires 0 <= row && row + dim <= numY
    requires 0 <= nServers <= |servers| && 0 <= col && col + nServers * dim <= numX
    requires 0 <= s < nServers && 0 <= xi < dim && 0 <= yi < dim
    ensures var req := BuildUrls(Linspace(xMin, xMax, numX), Linspace(yMin, yMax, numY),
                                 row, col, servers, nServers, dim, maxN)[s].request;
      && Renderable(req)
      && FirstColumn(col, s, dim) + xi < numX
      && CellByte(req, xi, yi)
         == CellByte(ImageRequest(xMin, yMin, xMax, yMax, numX, numY, maxN),
                     FirstColumn(col, s, dim) + xi, row + yi)
  {
    TileOnImageGrid(xMin, yMin, xMax, yMax, numX, numY, servers, row, col, nServers, dim, maxN, s);
    BlocksInRange(col, nServers, dim);
    BlocksAdjacent(col, s, dim);
  }

  /**
   * With one-column tiles every block the handler as written returns is
   * black, while the pixel of the image it stands for is the tile sampled at
   * its min.
   */
  lemma OneColumnTilesAreBlack(xMin: real, yMin: real, xMax: real, yMax: real, numX: int, numY: int,
                               servers: seq<string>, row: int, col: int, nServers: int,
                               maxN: int, s: int)
    requires 0 <= row < numY
    requires 0 <= nServers <= |servers| && 0 <= col && col + nServers <= numX
    requires 0 <= s < nServers
    ensures var req := BuildUrls(Linspace(xMin, xMax, numX), Linspace(yMin, yMax, numY),
                                 row, col, servers, nServers, 1, maxN)[s].request;
      && Renderable(req) && col + s < numX
      && CellByteAsWritten(req, 0, 0) == 0
      && CellByte(req, 0, 0) == CellByte(ImageRequest(xMin, yMin, xMax, yMax, numX, numY, maxN), col + s, row)
  {
    var req := BuildUrls(Linspace(xMin, xMax, numX), Linspace(yMin, yMax, numY),
                         row, col, servers, nServers, 1, maxN)[s].request;
    assert nServers * 1 == nServers && FirstColumn(col, s, 1) == col + s;
    TileCellIsImageCell(xMin, yMin, xMax, yMax, numX, numY, servers, row, col, nServers, 1, maxN, s, 0, 0);
    OnePointSideIsBlack(req, 0, 0);
  }

  /**
   * In the 3 by 3 view of [-2, 1] x [-1, 1] at 256 iterations, the one-column
   * tile of the centre pixel asks for the single point (-1/2, 0).
   */
  lemma CentreTileRequest()
    ensures BuildUrls(Linspace(-2.0, 1.0, 3), Linspace(-1.0, 1.0, 3), 1, 1, ["localhost:3000"], 1, 1, 256)[0].request
            == RenderRequest(-0.5, 0.0, -0.5, 0.0, 1, 1, 256)
  {
    PointAt(-2.0, 1.0, 2, 1);
    PointAt(-1.0, 1.0, 2, 1);
  }

  /**
   * An image whose pixel the one-column tiles lose: in that view the tile of
   * the centre pixel comes back as byte 0, while that pixel of the image is 255.
   */
  lemma OneColumnTileLosesPixel()
    ensures CellByteAsWritten(RenderRequest(-0.5, 0.0, -0.5, 0.0, 1, 1, 256), 0, 0) == 0
    ensures CellByte(ImageRequest(-2.0, -1.0, 1.0, 1.0, 3, 3, 256), 1, 1) == 255
    ensures BuildUrls(Linspace(-2.0, 1.0, 3), Linspace(-1.0, 1.0, 3), 1, 1, ["localhost:3000"], 1, 1, 256)[0].request
            == RenderRequest(-0.5, 0.0, -0.5, 0.0, 1, 1, 256)
  {
    CentreTileRequest();
    OnePointSideIsBlack(RenderRequest(-0.5, 0.0, -0.5, 0.0, 1, 1, 256), 0, 0);
    ClassicViewCentreIsBright();
  }

  /** The dim by dim block at (col, row) lies between the left and right edges of an image m columns wide. */
  predicate BlockFits(m: int, col: int, dim: int) {
    m >= 1 && 0 <= col && col + dim <= m
  }

  /** Whether flat position k of an image m columns wide falls in the dim by dim block at (col, row). */
  predicate InBlock(k: int, m: int, row: int, col: int, dim: int)
    requires m >= 1
  {
    row <= k / m < row + dim && col <= k % m < col + dim
  }

  /** Flat position of column x, row y in an image m columns wide. */
  function Pos(x: int, y: int, m: int): int {
    x + y * m
  }

  /** The dictionary key of column x, row y: its place in the block at (col, row), read row-major. */
  function Key(x: int, y: int, row: int, col: int, dim: int): int {
    (x - col) + (y - row) * dim
  }

  /** The dictionary key of flat position k of an image m columns wide. */
  function KeyAt(k: int, m: int, row: int, col: int, dim: int): int
    requires m >= 1
  {
    Key(k % m, k / m, row, col, dim)
  }

  /**
   * The positions the paste has written once rows row .. y - 1 and columns
   * col .. x - 1 of row y are done.
   */
  predicate Filled(k: int, m: int, row: int, col: int, dim: int, y: int, x: int)
    requires m >= 1
  {
    var r := k / m;
    var c := k % m;
    col <= c && ((row <= r < y && c < col + dim) || (r == y && c < x))
  }

  /** Every filled position holds its block value; every other one its old value. */
  predicate PastedUpTo(image: seq<int>, data: seq<int>, sub: map<int, int>,
                       m: int, row: int, col: int, dim: int, y: int, x: int)
    requires m >= 1 && |image| == |data|
  {
    forall k :: 0 <= k < |image| ==>
      if Filled(k, m, row, col, dim, y, x) then
        KeyAt(k, m, row, col, dim) in sub && image[k] == sub[KeyAt(k, m, row, col, dim)]
      else
        image[k] == data[k]
  }

  /** One more column of row y adds exactly the position of that column. */
  lemma FilledStep(k: int, m: int, row: int, col: int, dim: int, y: int, x: int)
    requires BlockFits(m, col, dim) && row <= y && col <= x < col + dim
    ensures Filled(k, m, row, col, dim, y, x + 1) <==> Filled(k, m, row, col, dim, y, x) || k == Pos(x, y, m)
  {
    DivModUnique(Pos(x, y, m), m, y, x);
    if k / m == y && k % m == x {
      DivModSplit(k, m);
    }
  }

  /** Writing the value for (x, y) extends the filled region by that one position. */
  lemma PasteStep(image: seq<int>, data: seq<int>, sub: map<int, int>,
                  m: int, row: int, col: int, dim: int, y: int, x: int)
    requires BlockFits(m, col, dim) && |image| == |data|
    requires row <= y < row + dim && col <= x < col + dim
    requires 0 <= Pos(x, y, m) < |image|
    requires Key(x, y, row, col, dim) in sub
    requires PastedUpTo(image, data, sub, m, row, col, dim, y, x)
    ensures PastedUpTo(image[Pos(x, y, m) := sub[Key(x, y, row, col, dim)]], data, sub,
                       m, row, col, dim, y, x + 1)
  {
    var p := Pos(x, y, m);
    var image' := image[p := sub[Key(x, y, row, col, dim)]];
    DivModUnique(p, m, y, x);
    forall k | 0 <= k < |image'|
      ensures if Filled(k, m, row, col, dim, y, x + 1) then
          KeyAt(k, m, row, col, dim) in sub && image'[k] == sub[KeyAt(k, m, row, col, dim)]
        else
          image'[k] == data[k]
    {
      FilledStep(k, m, row, col, dim, y, x);
    }
  }

  /** A finished row y is the same filled region as row y + 1 not yet begun. */
  lemma RowDone(image: seq<int>, data: seq<int>, sub: map<int, int>,
                m: int, row: int, col: int, dim: int, y: int)
    requires BlockFits(m, col, dim) && |image| == |data| && row <= y
    requires PastedUpTo(image, data, sub, m, row, col, dim, y, col + dim)
    ensures PastedUpTo(image, data, sub, m, row, col, dim, y + 1, col)
  {
  }

  /** Once every row is done, the filled region is exactly the block. */
  lemma PastedBlock(image: seq<int>, data: seq<int>, sub: map<int, int>,
                    m: int, row: int, col: int, dim: int)
    requires BlockFits(m, col, dim) && |image| == |data|
    requires PastedUpTo(image, data, sub, m, row, col, dim, row + dim, col)
    ensures forall y, x :: row <= y < row + dim && col <= x < col + dim && 0 <= Pos(x, y, m) < |image| ==>
      Key(x, y, row, col, dim) in sub && image[Pos(x, y, m)] == sub[Key(x, y, row, col, dim)]
    ensures forall k :: 0 <= k < |image| && !InBlock(k, m, row, col, dim) ==> image[k] == data[k]
  {
    forall y, x | row <= y < row + dim && col <= x < col + dim && 0 <= Pos(x, y, m) < |image|
      ensures Key(x, y, row, col, dim) in sub && image[Pos(x, y, m)] == sub[Key(x, y, row, col, dim)]
    {
      DivModUnique(Pos(x, y, m), m, y, x);
      assert Filled(Pos(x, y, m), m, row, col, dim, row + dim, col);
    }
  }

  /**
   * Once every row is done, every position of a block whose last position is
   * inside the image holds its keyed value, and every other position its old one.
   */
  lemma PastedWholeBlock(image: seq<int>, data: seq<int>, sub: map<int, int>,
                         m: int, row: int, col: int, dim: int)
    requires BlockFits(m, col, dim) && |image| == |data| && 0 <= row
    requires dim >= 1 ==> Pos(col + dim - 1, row + dim - 1, m) < |image|
    requires PastedUpTo(image, data, sub, m, row, col, dim, row + dim, col)
    ensures forall y, x :: row <= y < row + dim && col <= x < col + dim ==>
      && 0 <= Pos(x, y, m) < |image|
      && Key(x, y, row, col, dim) in sub
      && image[Pos(x, y, m)] == sub[Key(x, y, row, col, dim)]
    ensures forall k :: 0 <= k < |image| && !InBlock(k, m, row, col, dim) ==> image[k] == data[k]
  {
    PastedBlock(image, data, sub, m, row, col, dim);
    forall y, x | row <= y < row + dim && col <= x < col + dim
      ensures 0 <= Pos(x, y, m) < |image|
    {
      BlockPositionBounds(m, row, col, dim, y, x);
    }
  }

  /** Position (x, y) of a block lies between its first and last positions. */
  lemma BlockPositionBounds(m: int, row: int, col: int, dim: int, y: int, x: int)
    requires 0 <= row && 0 <= col && 0 <= m
    requires row <= y < row + dim && col <= x < col + dim
    ensures Pos(col, row, m) <= Pos(x, y, m) <= Pos(col + dim - 1, row + dim - 1, m)
    ensures 0 <= Key(x, y, row, col, dim) < dim * dim
  {
    MulMonotone(row, y, m);
    MulMonotone(y, row + dim - 1, m);
    RowMajorIndex(dim, dim, x - col, y - row);
  }

  /**
   * The inner loop of addSubdata: write row y of the block, columns col ..
   * col + dim - 1, from the keys j * dim .. j * dim + dim - 1, where j = y - row.
   * Positions outside the block's span keep their values, and when the block
   * fits, row y joins the filled region.
   */
  method PasteRow(image: seq<int>, data: seq<int>, maxCols: int, row: int, col: int, dim: int,
                  sub: map<int, int>, y: int, j: int)
    returns (image': seq<int>)
    requires 0 <= row <= y < row + dim && j == y - row && 0 <= col && 0 <= maxCols
    requires Pos(col + dim - 1, row + dim - 1, maxCols) < |data| == |image|
    requires forall key :: 0 <= key < dim * dim ==> key in sub
    requires forall k :: 0 <= k < |image| && (k < Pos(col, row, maxCols) || Pos(col + dim - 1, row + dim - 1, maxCols) < k) ==>
      image[k] == data[k]
    requires BlockFits(maxCols, col, dim) ==> PastedUpTo(image, data, sub, maxCols, row, col, dim, y, col)
    ensures |image'| == |data|
    ensures forall k :: 0 <= k < |image'| && (k < Pos(col, row, maxCols) || Pos(col + dim - 1, row + dim - 1, maxCols) < k) ==>
      image'[k] == data[k]
    ensures BlockFits(maxCols, col, dim) ==> PastedUpTo(image', data, sub, maxCols, row, col, dim, y + 1, col)
  {
    image' := image;
    ghost var lo := Pos(col, row, maxCols);
    ghost var hi := Pos(col + dim - 1, row + dim - 1, maxCols);
    var i := 0;
    var x := col;
    while x < col + dim
      invariant col <= x <= col + dim
      invariant i == x - col
      invariant |image'| == |data|
      invariant forall k :: 0 <= k < |image'| && (k < lo || hi < k) ==> image'[k] == data[k]
      invariant BlockFits(maxCols, col, dim) ==>
        PastedUpTo(image', data, sub, maxCols, row, col, dim, y, x)
    {
      BlockPositionBounds(maxCols, row, col, dim, y, x);
      if BlockFits(maxCols, col, dim) {
        PasteStep(image', data, sub, maxCols, row, col, dim, y, x);
      }
      image' := image'[x + y * maxCols := sub[i + j * dim]];
      i := i + 1;
      x := x + 1;
    }
    if BlockFits(maxCols, col, dim) {
      RowDone(image', data, sub, maxCols, row, col, dim, y);
    }
  }

  /**
   * addSubdata: copy the dim * dim values a server returned, keyed 0 ..
   * dim * dim - 1 in row-major order, into the block whose top-left pixel is
   * (col, row) of an image max_cols wide. The source updates the list in place;
   * here the updated buffer is returned. A missing key would raise KeyError
   * and a position past the end IndexError, so both are excluded.
   */
  method AddSubdata(data: seq<int>, maxCols: int, row: int, col: int, dim: int, sub: map<int, int>)
    returns (image: seq<int>)
    requires 0 <= row && 0 <= col && 0 <= maxCols
    requires dim >= 1 ==> Pos(col + dim - 1, row + dim - 1, maxCols) < |data|
    requires forall key :: 0 <= key < dim * dim ==> key in sub
    ensures |image| == |data|
    ensures forall k :: 0 <= k < |image| && (k < Pos(col, row, maxCols) || Pos(col + dim - 1, row + dim - 1, maxCols) < k) ==>
      image[k] == data[k]
    ensures BlockFits(maxCols, col, dim) ==>
      forall y, x :: row <= y < row + dim && col <= x < col + dim ==>
        && 0 <= Pos(x, y, maxCols) < |image|
        && Key(x, y, row, col, dim) in sub
        && image[Pos(x, y, maxCols)] == sub[Key(x, y, row, col, dim)]
    ensures BlockFits(maxCols, col, dim) ==>
      forall k :: 0 <= k < |image| && !InBlock(k, maxCols, row, col, dim) ==> image[k] == data[k]
  {
    image := data;
    var j := 0;
    var y := row;
    while y < row + dim
      invariant row <= y && (dim >= 0 ==> y <= row + dim) && (dim < 0 ==> y == row)
      invariant j == y - row
      invariant |image| == |data|
      invariant forall k :: 0 <= k < |image| && (k < Pos(col, row, maxCols) || Pos(col + dim - 1, row + dim - 1, maxCols) < k) ==>
        image[k] == data[k]
      invariant BlockFits(maxCols, col, dim) ==>
        PastedUpTo(image, data, sub, maxCols, row, col, dim, y, col)
    {
      image := PasteRow(image, data, maxCols, row, col, dim, sub, y, j);
      j := j + 1;
      y := y + 1;
    }
    if BlockFits(maxCols, col, dim) {
      PastedWholeBlock(image, data, sub, maxCols, row, col, dim);
    }
  }
}
