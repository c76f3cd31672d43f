# Distributed Mandelbrot renderer — a Dafny model of its core

The system renders the Mandelbrot set as a grey-scale image.

- **Server.** A small HTTP server answers `GET /mandelbrot/:x_min/:y_min/:x_max/:y_max/:x_num/:y_num/:n_lim`. It samples an `x_num` by `y_num` grid over the rectangle. For each grid point it runs the escape-time loop `z ↦ z² + c` for up to `n_lim` iterations. It then maps every iteration count into one of 256 buckets and returns the bytes row by row.
- **Client.** The client cuts the image into `dim` by `dim` tiles. It walks each row of tiles in cycles of `dim`·S columns, where S is the number of servers, and gives each server one tile per cycle. It pastes the returned blocks into a flat pixel buffer and writes the result as a Plain PGM (`P2`) file, as described by the Netpbm pgm(5) format.

This project models that pipeline in Dafny and proves its properties. Coordinates and orbits are exact reals.

| module | file | models |
|---|---|---|
| `EscapeTime` | escape_time.dfy | `complexSquare`, `f_c`, `mandelbrot` |
| `PixelMap` | pixel_map.dfy | `iterationsToPixel` and the Uint8Array store |
| `RangeSampler` | range_sampler.dfy | `createEqualRange` and the client's `np.linspace` |
| `ServerConfig` | server_config.dfy | the server's `parseArgs` |
| `GridRender` | grid_render.dfy | the GET handler's body |
| `ClientConfig` | client_config.dfy | the client's `parseArgs` |
| `Tiles` | tiles.dfy | `buildUrls`, `addSubdata`, and how a tile lines up with the image |
| `Schedule` | schedule.dfy | `isLastCycle` and the client's row and column loops |
| `Decimal` | decimal.dfy | the decimal text Python writes for an integer, and its reader |
| `Pgm` | pgm.dfy | the text `genPGMImage` writes, and its reader |
| `Arith` | arith.dfy | multiplication, division and remainder facts shared by the others |

Every writer has a partner, and a lemma links the two:

- Each command line has a command-line builder, and each parser reads it back.
- The PGM text has a reader that recovers the image.
- `mandelbrot` has a declarative description of the count it must return.
- `isLastCycle` has the tiling goal it serves.
- `addSubdata` has the block-paste predicate its loops establish.

Three facts about the code shape the model:

- **No validation.** The handler validates none of `x_num`, `y_num` and `n_lim`. The model states the cases the code cannot handle as preconditions or as explicit outcomes.
- **`n_lim` below 256.** The bucket size is then 0 or negative, so the bucket index is NaN, an infinity or −0. A Uint8Array stores each of those as 0, and `PixelMap.PixelByte` models exactly that.
- **One-point sides.** `createEqualRange(min, max, 0)` divides by zero, so a grid side of one point is sampled at NaN. That makes one-column tiles come back black; see "## Findings". The model samples such a side at `min`, as the client's `np.linspace` does.

## Model

| member | source | states |
|---|---|---|
| `EscapeTime.Square` | server/utils.js:7-12 | complexSquare's (a²−b², 2ab) equals the complex product z·z |
| `EscapeTime.SquareNorm` | server/utils.js:7-12 | squaring z squares its squared modulus |
| `EscapeTime.Step` | server/utils.js:20-26 | f_c(c, z) is z·z + c |
| `EscapeTime.SqrtTestAgrees` | server/utils.js:44-45 | for the non-negative square root m of the squared modulus, the loop's test m ≤ 2 holds exactly when the squared modulus is at most 4 |
| `EscapeTime.Iterate` | server/utils.js:41-45 | the do-while, entered after n bounded iterations, returns more than n, and the result is a valid escape count |
| `EscapeTime.Mandelbrot` | server/utils.js:37-47 | the count is at least 1, at most n_lim when n_lim ≥ 1, and exactly 1 when n_lim ≤ 1; it is the escape count: no orbit point before it left the disc of radius 2, and when it is below n_lim that point did |
| `EscapeTime.EscapeCountUnique` | server/utils.js:28-32 | at most one count fits that description, so it determines mandelbrot's result |
| `EscapeTime.ReachesCapWhenBounded` | server/utils.js:45 | an orbit that stays in the disc below the cap is reported at n_lim |
| `EscapeTime.OriginReachesCap` | server/utils.js:37-47 | mandelbrot(0, 0, n) = n |
| `EscapeTime.MinusTwoReachesCap` | server/utils.js:45 | modulus exactly 2 keeps iterating: mandelbrot(−2, 0, n) = n |
| `EscapeTime.ThreeEscapesAtOnce` | server/utils.js:41-46 | mandelbrot(3, 0, n) = 1 for every n |
| `EscapeTime.TwoEscapesOnSecond` | server/utils.js:44-45 | c = 2 sits exactly on the circle after one step and escapes on the second: mandelbrot(2, 0, n) = 2 for n ≥ 2 |
| `EscapeTime.MinusHalfReachesCap` | server/utils.js:37-47 | c = −1/2 is in the set: mandelbrot(−0.5, 0, n) = n |
| `PixelMap.BucketIndexInRange` | server/utils.js:50-57 | a bucket index of a count in [1, 256·b] lies in [0, 255], and the count 256·b is in bucket 255 |
| `PixelMap.IterationsToPixel` | server/utils.js:54-58 | the result p is the bucket holding it: bucket_size·p ≤ it−1 < bucket_size·(p+1); it = 1 gives 0; for a multiple of 256 the result is in [0, 255] and it = max_iters gives 255 |
| `PixelMap.PixelMonotone` | server/utils.js:54-58 | more iterations never give a darker pixel |
| `PixelMap.PixelOverflowsUnlessMultiple` | server/utils.js:52-57 | for max_iters ≥ 256 that is not a multiple of 256, it = max_iters lands past bucket 255 |
| `PixelMap.ToUint8` | server/app.js:23 | a Uint8Array cell keeps a byte value and wraps any other integer modulo 256 |
| `PixelMap.PixelByte` | server/app.js:31-32 | the stored byte is in [0, 255]; it equals the bucket index, without wrap-around, when n_lim is a positive multiple of 256; it is congruent to it modulo 256 when n_lim ≥ 256; it is 0 when n_lim < 256 |
| `RangeSampler.CreateEqualRange` | server/utils.js:66-73 | n + 1 points, the first min, the last max, consecutive points (max − min)/n apart |
| `RangeSampler.PointAt` | server/utils.js:69-71 | point i is min + i·delta |
| `RangeSampler.RangeWithinBounds` | server/utils.js:66-73 | every point lies between the two endpoints, in either order |
| `RangeSampler.RangeIncreasing` | server/utils.js:66-73 | over min < max the points strictly increase |
| `RangeSampler.SubRangeAligned` | server/utils.js:66-73 | resampling the span between points i and i + m of a range at m steps gives exactly points i..i+m of that range |
| `RangeSampler.Linspace` | client/main.py:24-25 | num coordinates: none for num = 0, lo alone for num = 1, otherwise from lo to hi |
| `RangeSampler.LinspaceAligned` | client/main.py:24-25 | resampling the span between points i and i + m of a linspace at m + 1 points gives exactly points i..i+m, also for a single point |
| `ServerConfig.ParseArgs` | server/utils.js:94-107 | 3 arguments give localhost and args[2]; 4 give args[2] and args[3]; any other count gives localhost:3000 |
| `ServerConfig.ParseArgsReadsCommandLine` | server/utils.js:89-92 | each documented start-up command is read back as the endpoint it names |
| `ServerConfig.ExplicitLocalhostSame` | server/utils.js:97-102 | naming localhost explicitly gives the same endpoint as leaving it out |
| `GridRender.XCoords` | server/app.js:25 | x_num x coordinates, starting at x_min and ending at x_max when there are two or more |
| `GridRender.YCoords` | server/app.js:26 | y_num y coordinates, starting at y_min and ending at y_max when there are two or more |
| `GridRender.CellAt` | server/app.js:31-32 | the byte for flat position k, that of column k mod x_num of row k div x_num, fits in a byte |
| `GridRender.Render` | server/app.js:23-35 | the buffer has x_num·y_num bytes, and every position k holds the pixel of column k mod x_num of row k div x_num |
| `GridRender.RenderRow` | server/app.js:30-34 | one pass of the inner loop moves the running index from yi·x_num to (yi + 1)·x_num and fills row yi, keeping the rows before it |
| `GridRender.CellAtPoint` | server/app.js:28-34 | grid point (xi, yi) is stored at yi·x_num + xi, inside the buffer: the layout is row-major with y outermost |
| `GridRender.ClassicViewCentreIsBright` | server/app.js:25-32 | in a 3 by 3 view of [−2, 1]×[−1, 1] at 256 iterations the centre byte is 255 |
| `GridRender.CoordsAsWritten` | server/utils.js:66-71 | as written, one point gives the single coordinate NaN; two or more give the real grid |
| `GridRender.MandelbrotAsWritten` | server/utils.js:37-47 | with a NaN coordinate the loop stops after its first pass, because `NaN <= 2` is false |
| `GridRender.AsWrittenAgrees` | server/app.js:25-32 | with two or more points on each side, the handler as written stores exactly the modelled pixels |
| `GridRender.FirstPassIsBlack` | server/utils.js:54-57 | a count of 1 is stored as byte 0 for every n_lim |
| `GridRender.OnePointSideIsBlack` | server/app.js:25-32 | as written, every byte of a grid with a one-point side is 0 |
| `ClientConfig.ParseArgs` | client/utils.py:9-21 | with nine or more arguments, positions 0..7 are x_min, y_min, x_max, y_max, max_n, x, y, dim and the rest are the servers; with fewer, the defaults; at least one server either way |
| `ClientConfig.ParseArgsReadsCommandLine` | client/utils.py:10-19 | a command line written for a configuration with at least one server is read back as that configuration |
| `ClientConfig.NoServersFallsBack` | client/utils.py:10-21 | a command line with no server falls back to the defaults |
| `Tiles.BlocksInRange` | client/utils.py:44-46 | the blocks of n servers lie within [col, col + n·dim) |
| `Tiles.BuildUrls` | client/utils.py:40-48 | one request per server, in server order; request s covers columns col + s·dim to col + (s+1)·dim − 1 and rows row to row + dim − 1, as a dim by dim grid at max_n, with fields in route order |
| `Tiles.BlocksAdjacent` | client/utils.py:44-46 | each block is dim columns wide and the next server's block starts right after it |
| `Tiles.BlocksDisjoint` | client/utils.py:37-39 | no column belongs to the blocks of two different servers |
| `Tiles.TileOnImageGrid` | client/utils.py:41-47 | for every dim ≥ 1, the coordinates a server samples for request s are exactly the image grid's columns and rows of that block; for dim = 1 this uses the corrected one-point sampling |
| `Tiles.TileColumns` | client/utils.py:45-47 | a request spanning columns first .. first + dim − 1 at dim points samples exactly those columns |
| `Tiles.TileRows` | client/utils.py:41-42 | a request spanning rows row .. row + dim − 1 at dim points samples exactly those rows |
| `Tiles.TileCellIsImageCell` | client/utils.py:37-47 | for every dim ≥ 1, pixel (xi, yi) of server s's block is pixel (col + s·dim + xi, row + yi) of the whole image |
| `Tiles.OneColumnTilesAreBlack` | client/utils.py:40-48 | with dim = 1, every tile the handler as written returns is byte 0, while the tile sampled at its min is the image's pixel |
| `Tiles.CentreTileRequest` | client/utils.py:40-48 | in the 3 by 3 view of [−2, 1]×[−1, 1] with dim = 1, the centre tile asks for the single point (−1/2, 0) |
| `Tiles.OneColumnTileLosesPixel` | client/utils.py:40-48 | that tile comes back as byte 0, while the centre pixel of the image is 255 |
| `Tiles.PastedBlock` | client/utils.py:29-31 | once every row of the block is written, every block cell holds its keyed value and every other cell its old value |
| `Tiles.BlockPositionBounds` | client/utils.py:29-31 | every block position lies between the block's first and last positions, and every key is in [0, dim²) |
| `Tiles.PastedWholeBlock` | client/utils.py:29-31 | once every row is done, every block position is inside the list and holds its keyed value, and every other position its old value |
| `Tiles.PasteRow` | client/utils.py:30-32 | the inner loop keeps every position outside the block's span and adds row y to the filled region |
| `Tiles.AddSubdata` | client/utils.py:26-34 | length kept; cells before the block's first or after its last position are unchanged; when the block fits in a row, (x, y) gets the value keyed (x−col) + (y−row)·dim and every cell outside the block keeps its value |
| `Schedule.IsLastCycle` | client/utils.py:51-56 | with one-column tiles it holds exactly when a full cycle would run past the image; when the width is a multiple of a full cycle it never holds |
| `Schedule.NextServers` | client/main.py:32-34 | the reduced server count stays between 1 and the count before |
| `Schedule.RowCycles` | client/main.py:30-34 | the cycles start at col and stay in [col, numX), each with between 1 and nr servers; there are none from col ≥ numX |
| `Schedule.RowSchedule` | client/main.py:28-30 | a row's cycles start inside the image and use between 1 and len(servers) servers |
| `Schedule.CycleStep` | client/utils.py:51-56 | one cycle fits inside the row; a last cycle ends exactly at the right edge with none after it; any other starts the next at the following multiple of a full cycle |
| `Schedule.RowCyclesTile` | client/main.py:27-37 | from any cycle boundary, the cycles stay inside the image, each starts where the previous ended and the last ends at numX; proved for dim = 1 or numX a multiple of dim·S |
| `Schedule.RowScheduleTiles` | client/main.py:28-37 | a whole row is tiled from column 0 to numX exactly, under the same conditions |
| `Schedule.TenColumnsOverrun` | client/utils.py:54-56 | with numX = 10, dim = 2 and three servers the second cycle still uses all three and reaches column 11 |
| `Schedule.RowStarts` | client/main.py:27 | the row starts increase by dim from row and stay below numY |
| `Schedule.RowStartsInBounds` | client/main.py:27 | when numY is a multiple of dim every row of tiles fits in the image |
| `Decimal.ShowNat` | client/utils.py:70 | the decimal digits of a natural number, beginning with '0' exactly when it is 0, so without leading zeros |
| `Decimal.Show` | client/utils.py:70 | the text is non-empty and begins with a minus sign exactly for a negative number |
| `Decimal.ShowChars` | client/utils.py:70 | the text consists of digits, apart from a leading minus sign |
| `Decimal.ParseInt` | client/utils.py:70 | a reader of that text accepts exactly a non-empty digit string, with or without one leading minus sign; the value is not negative without the sign and not positive with it |
| `Decimal.ShowRoundTrip` | client/utils.py:70 | reading the text written for n gives back n |
| `Pgm.RowOf` | client/utils.py:67-69 | row `row` is width values, or none when width < 1 |
| `Pgm.RowText` | client/utils.py:68-72 | a row's text is empty exactly when it has no values |
| `Pgm.BodyText` | client/utils.py:67-73 | the body is empty exactly when there are no rows, and otherwise ends with a newline |
| `Pgm.PgmText` | client/utils.py:60-73 | the file starts with "P2\n" and ends with a newline |
| `Pgm.RowTextOneLine` | client/utils.py:68-72 | a row's text has no newline: one line per image row |
| `Pgm.ReadShown` | client/utils.py:65-70 | a written number followed by a separator is read back with the text after it |
| `Pgm.RowRoundTrip` | client/utils.py:68-72 | a row's text, read up to its newline, gives back its values: single spaces between them, none after the last |
| `Pgm.RowOfReadsBack` | client/utils.py:67-72 | the text of one row, followed by a newline, reads back as that row's values |
| `Pgm.BodyRoundTripStep` | client/utils.py:67-73 | if the rows below a row read back, so do the rows from it on |
| `Pgm.BodyRoundTrip` | client/utils.py:67-73 | the body, read line by line, gives back all rows' values in order, with nothing left over |
| `Pgm.HeaderRoundTrip` | client/utils.py:64-66 | the header lines written for width, height and the maximum value read back as them, with the text after them |
| `Pgm.PgmRoundTrip` | client/utils.py:63-73 | reading the file gives back the width, the height, 255 and the first width·height values of the buffer |
| `Pgm.PixelAt` | client/utils.py:69 | value (row, col) read back is data[col + width·row] |

## Left out

- Floating point. The model uses exact reals and leaves out:
  - the rounding of `Math.pow` and `Math.sqrt`;
  - the Float32Array narrowing in `createEqualRange`;
  - the float64 rounding of `np.linspace`, which `RangeSampler.Linspace` models over exact reals.

  No bit-exact claim is made.
- One-point grid sides. With `x_num = 1` or `y_num = 1`, `createEqualRange` divides by zero and the coordinates are NaN. `GridRender.XCoords` and `GridRender.YCoords` sample such a side at its min instead, and `GridRender.Render` uses them. The code as written is modelled by `GridRender.CellByteAsWritten` and reported under "## Findings".
- `GridRender.MandelbrotAsWritten`: takes as given that a NaN coordinate ends the loop after one pass, which is what IEEE comparison with NaN does. It does not model IEEE arithmetic itself.
- Counts of zero or less. The handler's behaviour for those (an empty buffer, or a RangeError from the typed arrays) is not modelled.
- `parseReqParams`. The route parameters arrive already parsed, as a `RenderRequest`.
- Express plumbing. Route registration, `res.send`, the fallback middleware and `app.listen` are not modelled.
- `client/main.py` as a whole: concurrent requests through grequests, `json.loads`, printing, and the per-server `addSubdata` calls. Its two loops are modelled as `Schedule.RowStarts` and `Schedule.RowCycles`; what they compose is given by `Tiles.TileCellIsImageCell` and `Tiles.AddSubdata`.
- Number parsing. Python's `float()` and `int()` in the client's `parseArgs` are the parameters `toReal` and `toInt`.
- Server port. The server's port stays command-line text, as the source passes it on.
- Request URLs. A URL is a record of the server and the route parameters, not the formatted f-string.
- The response dictionary. It is modelled as `map<int, int>` keyed by integers, not by the strings `str(i + j * dim)`.
- `genPGMImage` side effects. The file name, the clock and the file writes are not modelled; only the text written is.
- `Tiles.AddSubdata`: requires non-negative `row`, `col` and `max_cols`, the last block position inside the list, and every key present. Python would read negative indices from the end, and raises IndexError or KeyError otherwise.
- `Tiles.BuildUrls`: requires every coordinate and server it reads to exist. Python raises IndexError otherwise, and negative indices are left out.
- `Schedule.IsLastCycle`: its goal is proved only for one-column tiles or an image width that is a multiple of dim·S. The formula is modelled as written. `Schedule.TenColumnsOverrun` shows an input outside those conditions where the last cycle asks for columns past the image.
- `Schedule.RowCyclesTile`: does not hold for every width. It is stated under the same two conditions as `isLastCycle`'s goal.
- `GridRender.Render`: states the final content of every cell, not the order or number of writes.
- `PixelMap.IterationsToPixel`: requires `max_iters ≥ 256`. A smaller value makes the bucket size 0 or negative, so the quotient is NaN, an infinity or −0; `PixelMap.PixelByte` models what the Uint8Array then stores.

## Findings

| source | as written | input that shows it | evidently intended | confidence | as-written member | corrected member |
|---|---|---|---|---|---|---|
| server/utils.js:66-71 | `createEqualRange(min, max, num - 1)` divides by zero when a side has one point, so the coordinate is NaN, `mandelbrot` returns 1 and the stored byte is 0. The client asks for such one-column tiles whenever `dim = 1`. | `dim = 1`, 1 server, a 3 by 3 view of [−2, 1]×[−1, 1], `max_n = 256`: the centre tile's request is `http://localhost:3000/mandelbrot/-0.5/0.0/-0.5/0.0/1/1/256` (the record `RenderRequest(-0.5, 0.0, -0.5, 0.0, 1, 1, 256)`), which comes back as byte 0, while pixel (1, 1) of the image is 255 | a one-point side is sampled at its min, as the client's `np.linspace` does, so the tile is the image's pixel | not executed; high | `Tiles.OneColumnTileLosesPixel` | `Tiles.TileCellIsImageCell` |
