/**
 * The text of the image file the client writes: a Plain PGM ("P2") file as
 * described by the Netpbm pgm(5) format, with the header, the maximum grey
 * value 255, and one line of space-separated decimal values per image row.
 * A reader for exactly that layout is the writer's partner.
 */
module Pgm {
  import opened Arith
  import opened Decimal

  /** MAX_PIXEL_VAL: the maximum grey value written into the header. */
  const MaxPixelVal: int := 255

  /** The pixel values of `data` the writer visits, when every one of them exists. */
  predicate CoversImage(data: seq<int>, width: int, height: int) {
    width >= 1 && height >= 1 ==> width * height <= |data|
  }

  /** Row `row` lies inside a buffer of at least width * height values. */
  lemma RowInside(data: seq<int>, width: int, height: int, row: int)
    requires width >= 1 && 0 <= row < height && width * height <= |data|
    ensures 0 <= width * row && width * row + width <= |data|
  {
    MulMonotone(0, row, width);
    MulMonotone(row + 1, height, width);
  }

  /** The values of row `row` of the image, the ones the writer visits for it in column order. */
  function RowOf(data: seq<int>, width: int, height: int, row: int): (vals: seq<int>)
    requires 0 <= row < height && CoversImage(data, width, height)
    ensures width >= 1 ==> |vals| == width
    ensures width < 1 ==> vals == []
  {
    if width >= 1 then
      RowInside(data, width, height, row);
      data[width * row..width * row + width]
    else
      []
  }

  /** The text written for a row with values vals: each value, followed by a space unless it is the last. */
  function RowText(vals: seq<int>): (t: string)
    ensures |t| == 0 <==> |vals| == 0
    decreases |vals|
  {
    if |vals| == 0 then
      ""
    else
      Show(vals[0]) + (if |vals| != 1 then " " else "") + RowText(vals[1..])
  }

  /** The text written for rows row .. height - 1: each row's values and a newline. */
  function BodyText(data: seq<int>, width: int, height: int, row: int): (t: string)
    requires 0 <= row && CoversImage(data, width, height)
    ensures |t| == 0 <==> row >= height
    ensures |t| > 0 ==> t[|t| - 1] == '\n'
    decreases height - row
  {
    if row >= height then
      ""
    else
      RowText(RowOf(data, width, height, row)) + "\n" + BodyText(data, width, height, row + 1)
  }

  /**
   * genPGMImage(data, width, height), the text it writes to the file: the magic
   * number, the size, the maximum value, then the rows. The file name, the clock
   * and the file itself are not modelled.
   */
  function PgmText(data: seq<int>, width: int, height: int): (t: string)
    requires CoversImage(data, width, height)
    ensures |t| >= 3 && t[..3] == "P2\n"
    ensures t[|t| - 1] == '\n'
  {
    "P2\n" + (Show(width) + (" " + (Show(height) + ("\n" + (Show(MaxPixelVal) + ("\n" + BodyText(data, width, height, 0)))))))
  }

  /** What a reader recovers from the file: the size, the maximum value and the values row by row. */
  datatype Image = Image(width: int, height: int, maxVal: int, pixels: seq<int>)

  predicate IsSeparator(ch: char) {
    ch == ' ' || ch == '\n'
  }

  /** The length of the token at the start of s: the characters before the first separator. */
  function TokenLength(s: string): (n: nat)
    ensures n <= |s|
  {
    if |s| == 0 || IsSeparator(s[0]) then 0 else 1 + TokenLength(s[1..])
  }

  /** Reads the integer token at the start of s and returns it with the text after it. */
  function ReadInt(s: string): Option<(int, string)> {
    var n := TokenLength(s);
    match ParseInt(s[..n])
    case None => None
    case Some(v) => Some((v, s[n..]))
  }

  /** Consumes the character ch at the start of s. */
  function Expect(ch: char, s: string): Option<string> {
    if |s| > 0 && s[0] == ch then Some(s[1..]) else None
  }

  /** Reads n values of one row, separated by single spaces, and returns them with the text after the last. */
  function ParseRow(s: string, n: int): Option<(seq<int>, string)>
    decreases n
  {
    if n <= 0 then
      Some(([], s))
    else
      match ReadInt(s)
      case None => None
      case Some((v, rest)) =>
        if n == 1 then
          Some(([v], rest))
        else if |rest| > 0 && rest[0] == ' ' then
          match ParseRow(rest[1..], n - 1)
          case None => None
          case Some((vs, rest')) => Some(([v] + vs, rest'))
        else
          None
  }

  /** Reads rows row .. height - 1, each ended by a newline, and requires nothing after them. */
  function ParseBody(s: string, width: int, height: int, row: int): Option<seq<int>>
    decreases height - row
  {
    if row >= height then
      if s == [] then Some([]) else None
    else
      match ParseRow(s, width)
      case None => None
      case Some((vs, rest)) =>
        if |rest| > 0 && rest[0] == '\n' then
          match ParseBody(rest[1..], width, height, row + 1)
          case None => None
          case Some(more) => Some(vs + more)
        else
          None
  }

  /**
   * Reads the header after the magic number: "width height" on one line and
   * the maximum value on the next; gives them and the text after that line.
   */
  function ParseHeader(s: string): Option<(int, int, int, string)> {
    match ReadInt(s)
    case None => None
    case Some((width, r1)) =>
      match Expect(' ', r1)
      case None => None
      case Some(r2) =>
        match ReadInt(r2)
        case None => None
        case Some((height, r3)) =>
          match Expect('\n', r3)
          case None => None
          case Some(r4) =>
            match ReadInt(r4)
            case None => None
            case Some((maxVal, r5)) =>
              match Expect('\n', r5)
              case None => None
              case Some(r6) => Some((width, height, maxVal, r6))
  }

  /** Reads a Plain PGM text laid out the way genPGMImage writes it. */
  function ParsePgm(s: string): Option<Image> {
    if |s| >= 3 && s[..3] == "P2\n" then
      match ParseHeader(s[3..])
      case None => None
      case Some((width, height, maxVal, body)) =>
        match ParseBody(body, width, height, 0)
        case None => None
        case Some(pixels) => Some(Image(width, height, maxVal, pixels))
    else
      None
  }

  /** A token followed by a separator, or by nothing, is read up to that separator. */
  lemma {:induction false} TokenLengthOf(tok: string, rest: string)
    requires forall i :: 0 <= i < |tok| ==> !IsSeparator(tok[i])
    requires rest == [] || IsSeparator(rest[0])
    ensures TokenLength(tok + rest) == |tok|
    decreases |tok|
  {
    if |tok| > 0 {
      assert (tok + rest)[1..] == tok[1..] + rest;
      TokenLengthOf(tok[1..], rest);
    }
  }

  /** The text written for n is read back as n, leaving the text after it. */
  lemma ReadShown(n: int, rest: string)
    requires rest == [] || IsSeparator(rest[0])
    ensures ReadInt(Show(n) + rest) == Some((n, rest))
  {
    ShowChars(n);
    TokenLengthOf(Show(n), rest);
    var s := Show(n) + rest;
    assert s[..|Show(n)|] == Show(n);
    assert s[|Show(n)|..] == rest;
    ShowRoundTrip(n);
  }

  /** The text of a row has no newline in it: the file has one line per row. */
  lemma {:induction false} RowTextOneLine(vals: seq<int>)
    ensures forall i :: 0 <= i < |RowText(vals)| ==> RowText(vals)[i] != '\n'
    decreases |vals|
  {
    if |vals| > 0 {
      ShowChars(vals[0]);
      RowTextOneLine(vals[1..]);
    }
  }

  /** The last value of a row is read up to the newline after it. */
  lemma ParseLastValue(v: int, rest: string)
    requires |rest| > 0 && rest[0] == '\n'
    ensures ParseRow(Show(v) + rest, 1) == Some(([v], rest))
  {
    ReadShown(v, rest);
  }

  /** A value followed by a space is read, then the rest of the row after it. */
  lemma ParseNextValue(v: int, more: string, vs: seq<int>, rest: string, n: int)
    requires n >= 2
    requires ParseRow(more, n - 1) == Some((vs, rest))
    ensures ParseRow(Show(v) + (" " + more), n) == Some(([v] + vs, rest))
  {
    ReadShown(v, " " + more);
  }

  /** The text of a row of one value is that value's text. */
  lemma RowTextLast(vals: seq<int>, rest: string)
    requires |vals| == 1
    ensures RowText(vals) + rest == Show(vals[0]) + rest
  {
  }

  /** Concatenation regrouped to the right. */
  lemma Regroup(a: string, b: string, c: string, d: string)
    ensures (a + b + c) + d == a + (b + (c + d))
  {
  }

  /** The text of a row of several values: the first, a space, and the text of the others. */
  lemma RowTextStep(vals: seq<int>, rest: string)
    requires |vals| >= 2
    ensures RowText(vals) + rest == Show(vals[0]) + (" " + (RowText(vals[1..]) + rest))
  {
    var line := RowText(vals[1..]);
    assert RowText(vals) == Show(vals[0]) + " " + line;
    Regroup(Show(vals[0]), " ", line, rest);
  }

  /** The round trip for a row of one value. */
  lemma RowRoundTripLast(vals: seq<int>, rest: string)
    requires |vals| == 1
    requires |rest| > 0 && rest[0] == '\n'
    ensures ParseRow(RowText(vals) + rest, |vals|) == Some((vals, rest))
  {
    RowTextLast(vals, rest);
    ParseLastValue(vals[0], rest);
    assert [vals[0]] == vals;
  }

  /** The round trip for a row of several values, given the round trip for all but the first. */
  lemma RowRoundTripNext(vals: seq<int>, rest: string)
    requires |vals| >= 2
    requires ParseRow(RowText(vals[1..]) + rest, |vals[1..]|) == Some((vals[1..], rest))
    ensures ParseRow(RowText(vals) + rest, |vals|) == Some((vals, rest))
  {
    RowTextStep(vals, rest);
    ParseRowStep(vals, RowText(vals[1..]) + rest, rest);
  }

  /** Reading a row's first value, a space and then the others gives back all of them. */
  lemma ParseRowStep(vals: seq<int>, more: string, rest: string)
    requires |vals| >= 2
    requires ParseRow(more, |vals[1..]|) == Some((vals[1..], rest))
    ensures ParseRow(Show(vals[0]) + (" " + more), |vals|) == Some((vals, rest))
  {
    ParseNextValue(vals[0], more, vals[1..], rest, |vals|);
    assert [vals[0]] + vals[1..] == vals;
  }

  /** Reading the text of a row of at least one value, up to its newline, gives back the values. */
  lemma {:induction false} RowRoundTrip(vals: seq<int>, rest: string)
    requires |vals| >= 1
    requires |rest| > 0 && rest[0] == '\n'
    ensures ParseRow(RowText(vals) + rest, |vals|) == Some((vals, rest))
    decreases |vals|
  {
    if |vals| == 1 {
      RowRoundTripLast(vals, rest);
    } else {
      RowRoundTrip(vals[1..], rest);
      RowRoundTripNext(vals, rest);
    }
  }

  /** The values of rows row .. height - 1, in the order they are written. */
  function BodyValues(data: seq<int>, width: int, height: int, row: int): seq<int>
    requires 0 <= row && CoversImage(data, width, height)
  {
    if width >= 1 && row < height then
      MulMonotone(row, height, width);
      data[width * row..width * height]
    else
      []
  }

  /** The values of a row followed by those of the rows below it are the values from that row on. */
  lemma BodyValuesStep(data: seq<int>, width: int, height: int, row: int)
    requires 0 <= row < height && CoversImage(data, width, height)
    ensures BodyValues(data, width, height, row)
            == RowOf(data, width, height, row) + BodyValues(data, width, height, row + 1)
  {
    if width >= 1 {
      var a := width * row;
      var b := width * (row + 1);
      var c := width * height;
      assert b == a + width;
      MulMonotone(row, height, width);
      MulMonotone(row + 1, height, width);
      assert a <= b <= c <= |data|;
      assert data[a..c] == data[a..b] + data[b..c];
    }
  }

  /** The text of rows row .. height - 1 is the text of row `row`, a newline, and the rest. */
  lemma BodyTextStep(data: seq<int>, width: int, height: int, row: int)
    requires 0 <= row < height && CoversImage(data, width, height)
    ensures BodyText(data, width, height, row)
            == RowText(RowOf(data, width, height, row)) + ("\n" + BodyText(data, width, height, row + 1))
  {
  }

  /** A row that reads back followed by a body that reads back reads back as one body. */
  lemma ParseBodyStep(line: string, after: string, vs: seq<int>, more: seq<int>, width: int, height: int, row: int)
    requires row < height
    requires ParseRow(line + ("\n" + after), width) == Some((vs, "\n" + after))
    requires ParseBody(after, width, height, row + 1) == Some(more)
    ensures ParseBody(line + ("\n" + after), width, height, row) == Some(vs + more)
  {
    assert ("\n" + after)[1..] == after;
  }

  /** A row of an image without columns is written as nothing and read as nothing. */
  lemma RowRoundTripEmpty(vals: seq<int>, width: int, rest: string)
    requires width < 1 && vals == []
    ensures ParseRow(RowText(vals) + rest, width) == Some((vals, rest))
  {
    assert RowText(vals) + rest == rest;
  }

  /** The text of row `row`, followed by a newline, reads back as that row's values. */
  lemma RowOfReadsBack(data: seq<int>, width: int, height: int, row: int, after: string)
    requires 0 <= row < height && CoversImage(data, width, height)
    ensures ParseRow(RowText(RowOf(data, width, height, row)) + ("\n" + after), width)
            == Some((RowOf(data, width, height, row), "\n" + after))
  {
    var vals := RowOf(data, width, height, row);
    if width >= 1 {
      RowRoundTrip(vals, "\n" + after);
    } else {
      RowRoundTripEmpty(vals, width, "\n" + after);
    }
  }

  /** If the rows below `row` read back, so do the rows from `row` on. */
  lemma BodyRoundTripStep(data: seq<int>, width: int, height: int, row: int)
    requires 0 <= row < height && CoversImage(data, width, height)
    requires ParseBody(BodyText(data, width, height, row + 1), width, height, row + 1)
             == Some(BodyValues(data, width, height, row + 1))
    ensures ParseBody(BodyText(data, width, height, row), width, height, row)
            == Some(BodyValues(data, width, height, row))
  {
    var vals := RowOf(data, width, height, row);
    var after := BodyText(data, width, height, row + 1);
    BodyTextStep(data, width, height, row);
    RowOfReadsBack(data, width, height, row, after);
    ParseBodyStep(RowText(vals), after, vals, BodyValues(data, width, height, row + 1), width, height, row);
    BodyValuesStep(data, width, height, row);
  }

  /** The text of rows row .. height - 1 reads back as their pixel values. */
  lemma {:induction false} BodyRoundTrip(data: seq<int>, width: int, height: int, row: int)
    requires 0 <= row && CoversImage(data, width, height)
    ensures ParseBody(BodyText(data, width, height, row), width, height, row)
            == Some(BodyValues(data, width, height, row))
    decreases height - row
  {
    if row < height {
      BodyRoundTrip(data, width, height, row + 1);
      BodyRoundTripStep(data, width, height, row);
    } else {
      assert BodyText(data, width, height, row) == [];
    }
  }

  /** The values the writer visits, row by row: the first width * height of `data`. */
  function Pixels(data: seq<int>, width: int, height: int): seq<int>
    requires CoversImage(data, width, height)
  {
    if width >= 1 && height >= 1 then data[..width * height] else []
  }

  /**
   * A reader of the layout recovers exactly what was written: the width and
   * height, the maximum value 255, and the value at (row, col) from position
   * col + width * row of the buffer.
   */
  lemma PgmRoundTrip(data: seq<int>, width: int, height: int)
    requires CoversImage(data, width, height)
    ensures ParsePgm(PgmText(data, width, height)) == Some(Image(width, height, MaxPixelVal, Pixels(data, width, height)))
  {
    var body := BodyText(data, width, height, 0);
    var t := PgmText(data, width, height);
    assert t[3..] == Show(width) + (" " + (Show(height) + ("\n" + (Show(MaxPixelVal) + ("\n" + body)))));
    HeaderRoundTrip(width, height, MaxPixelVal, body);
    BodyRoundTrip(data, width, height, 0);
  }

  /** The header written for width, height and the maximum value reads back as them. */
  lemma HeaderRoundTrip(width: int, height: int, maxVal: int, body: string)
    ensures ParseHeader(Show(width) + (" " + (Show(height) + ("\n" + (Show(maxVal) + ("\n" + body))))))
            == Some((width, height, maxVal, body))
  {
    var tail := "\n" + body;
    ReadShown(width, " " + (Show(height) + ("\n" + (Show(maxVal) + tail))));
    ReadShown(height, "\n" + (Show(maxVal) + tail));
    ReadShown(maxVal, tail);
  }

  /** Position col + width * row of the buffer is the value at (row, col) of the image read back. */
  lemma PixelAt(data: seq<int>, width: int, height: int, row: int, col: int)
    requires CoversImage(data, width, height)
    requires 0 <= row < height && 0 <= col < width
    ensures |Pixels(data, width, height)| == width * height
    ensures row * width + col < width * height
    ensures Pixels(data, width, height)[row * width + col] == data[col + width * row]
  {
    RowMajorIndex(width, height, col, row);
    assert row * width + col == col + width * row;
  }
}
