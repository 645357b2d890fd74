/** The render thread's serialiser: it walks the front frame row by row and
    appends, for every cell, a cursor-position escape (CUP, ECMA-48 section
    8.3.21), a 24-bit foreground escape (SGR 38;2;r;g;b, ECMA-48 section
    8.3.117 with the colour form of ITU-T T.416 section 13.1.8) and the glyph.
    The coordinates are written as the program writes them: 0-based, row
    first. A parser reads such a frame back cell by cell. */
module Render {
  import opened Frames
  import opened Decimal
  import opened Optional

  const ESC: char := '\U{1B}'

  /** The control sequence introducer ESC '['. */
  const CSI: string := [ESC, '[']

  /** The formatting macro: the literal pieces of a format string
      interleaved with the rendered arguments, `pieces[0] args[0] pieces[1]
      args[1] ...`. */
  function Format(pieces: seq<string>, args: seq<string>): string
    requires |pieces| == |args|
    decreases |args|
  {
    if args == [] then [] else pieces[0] + args[0] + Format(pieces[1..], args[1..])
  }

  /** Each number rendered by `{}`. */
  function ShowAll(ns: seq<nat>): (r: seq<string>)
    ensures |r| == |ns|
  {
    seq(|ns|, k requires 0 <= k < |ns| => Show(ns[k]))
  }

  /** The literal pieces of `"\x1b[{};{}H\x1b[38;2;{};{};{}m{}"` in front of
      its five numbers: row, column, red, green, blue. */
  const CELL_FIELDS: seq<string> := [CSI, ";", "H" + CSI + "38;2;", ";", ";"]

  /** The piece in front of the glyph. */
  const GLYPH_PIECE: string := "m"

  /** Everything written for the cell at row `y`, column `x`: the CUP
      sequence for that position, then the SGR sequence for its colour,
      then its glyph. */
  function CellText(y: nat, x: nat, c: Cell): (t: string)
    ensures t == CursorTo(y, x) + Foreground(c.r, c.g, c.b) + [c.glyph]
  {
    CellFormat(y, x, c);
    Format(CELL_FIELDS + [GLYPH_PIECE], ShowAll([y, x, c.r, c.g, c.b]) + [[c.glyph]])
  }

  /** `"\x1b[{y};{x}H"`: CUP with row `y` and column `x` as given. */
  function CursorTo(y: nat, x: nat): string {
    CSI + Show(y) + ";" + Show(x) + "H"
  }

  /** `"\x1b[38;2;{r};{g};{b}m"`: SGR selecting a 24-bit foreground colour. */
  function Foreground(r: Byte, g: Byte, b: Byte): string {
    CSI + "38;2;" + Show(r) + ";" + Show(g) + ";" + Show(b) + "m"
  }

  lemma Associative(a: string, b: string, c: string)
    ensures a + b + c == a + (b + c)
  {
  }

  lemma FormatStep(pieces: seq<string>, args: seq<string>, rest: string)
    requires |pieces| == |args| > 0
    ensures Format(pieces, args) + rest == pieces[0] + (args[0] + (Format(pieces[1..], args[1..]) + rest))
  {
    var tail := Format(pieces[1..], args[1..]);
    Associative(pieces[0] + args[0], tail, rest);
    Associative(pieces[0], args[0], tail + rest);
  }

  lemma {:induction false} FormatSnoc(pieces: seq<string>, args: seq<string>, piece: string, arg: string, rest: string)
    requires |pieces| == |args|
    ensures Format(pieces + [piece], args + [arg]) + rest == Format(pieces, args) + (piece + (arg + rest))
    decreases |args|
  {
    if args == [] {
      assert pieces + [piece] == [piece] && args + [arg] == [arg];
      FormatStep([piece], [arg], rest);
    } else {
      assert (pieces + [piece])[1..] == pieces[1..] + [piece];
      assert (args + [arg])[1..] == args[1..] + [arg];
      FormatStep(pieces + [piece], args + [arg], rest);
      FormatSnoc(pieces[1..], args[1..], piece, arg, rest);
      FormatStep(pieces, args, piece + (arg + rest));
    }
  }

  /** One more field of a format unfolded at position `k`. */
  lemma FormatAt(p: seq<string>, a: seq<string>, k: nat, rest: string)
    requires |p| == |a| && k < |p|
    ensures Format(p[k..], a[k..]) + rest == p[k] + (a[k] + (Format(p[k + 1..], a[k + 1..]) + rest))
  {
    assert p[k..][1..] == p[k + 1..] && a[k..][1..] == a[k + 1..];
    FormatStep(p[k..], a[k..], rest);
  }

  /** A five-field format unfolded, every piece and argument in order. */
  lemma FormatFive(p: seq<string>, a: seq<string>, rest: string)
    requires |p| == |a| == 5
    ensures Format(p, a) + rest == p[0] + (a[0] + (p[1] + (a[1] + (p[2] + (a[2] + (p[3] + (a[3] + (p[4] + (a[4] + rest)))))))))
  {
    var t4 := p[4] + (a[4] + rest);
    assert Format(p[4..], a[4..]) + rest == t4 by {
      FormatAt(p, a, 4, rest);
      assert p[5..] == [] && a[5..] == [];
    }
    var t3 := p[3] + (a[3] + t4);
    assert Format(p[3..], a[3..]) + rest == t3 by { FormatAt(p, a, 3, rest); }
    var t2 := p[2] + (a[2] + t3);
    assert Format(p[2..], a[2..]) + rest == t2 by { FormatAt(p, a, 2, rest); }
    var t1 := p[1] + (a[1] + t2);
    assert Format(p[1..], a[1..]) + rest == t1 by { FormatAt(p, a, 1, rest); }
    assert Format(p, a) + rest == p[0] + (a[0] + t1) by {
      FormatAt(p, a, 0, rest);
      assert p[0..] == p && a[0..] == a;
    }
  }

  lemma Regroup(a: string, y: string, s: string, x: string, h: string, c2: string,
                 r: string, g: string, b: string, m: string, l: string)
    ensures a + (y + (s + (x + ((h + a + c2) + (r + (s + (g + (s + (b + (m + l))))))))))
      == (a + y + s + x + h) + (a + c2 + r + s + g + s + b + m) + l
  {
  }

  /** The cell's format string filled in, regrouped as its CUP sequence,
      its SGR sequence and its glyph. */
  lemma CellFormat(y: nat, x: nat, c: Cell)
    ensures Format(CELL_FIELDS + [GLYPH_PIECE], ShowAll([y, x, c.r, c.g, c.b]) + [[c.glyph]])
      == CursorTo(y, x) + Foreground(c.r, c.g, c.b) + [c.glyph]
  {
    var glyph := [c.glyph];
    var args := ShowAll([y, x, c.r, c.g, c.b]);
    FormatSnoc(CELL_FIELDS, args, GLYPH_PIECE, glyph, []);
    FormatFive(CELL_FIELDS, args, GLYPH_PIECE + glyph);
    assert args == [Show(y), Show(x), Show(c.r), Show(c.g), Show(c.b)];
    assert glyph + [] == glyph;
    Regroup(CSI, Show(y), ";", Show(x), "H", "38;2;", Show(c.r), Show(c.g), Show(c.b), "m", glyph);
  }

  /** What is written for one cell, given its row and column. */
  type CellFormatter = (nat, nat, Cell) -> string

  /** The text of the first `x` cells of row `y`, in column order, where the
      row's cells start at index `start`. */
  function RowText(emit: CellFormatter, cells: seq<Cell>, start: nat, y: nat, x: nat): string
    requires start + x <= |cells|
  {
    if x == 0 then [] else RowText(emit, cells, start, y, x - 1) + emit(y, x - 1, cells[start + x - 1])
  }

  /** The text of the first `y` rows, each row complete, in row order. */
  function FrameText(emit: CellFormatter, cells: seq<Cell>, width: nat, y: nat): string
    requires RowStart(width, y) <= |cells|
  {
    if y == 0 then [] else FrameText(emit, cells, width, y - 1) + RowText(emit, cells, RowStart(width, y - 1), y - 1, width)
  }

  /** The text of a whole `width` x `height` frame. */
  function Serialized(cells: seq<Cell>, width: nat, height: nat): string
    requires |cells| == width * height
  {
    RowStartIsProduct(width, height);
    FrameText(CellText, cells, width, height)
  }

  /** The render loop's body up to the write: appends the text of every cell
      of `front` to `buffer`, row by row. */
  method AppendFrame(buffer: string, front: FrameData) returns (out: string)
    requires front.Valid()
    ensures out == buffer + Serialized(front.data[..], front.width, front.height)
  {
    ghost var cells := front.data[..];
    var width, height := front.width, front.height;
    RowStartIsProduct(width, height);
    out := buffer;
    var y, start := 0, 0;
    while y < height
      invariant 0 <= y <= height && start == RowStart(width, y) && start <= |cells|
      invariant out == buffer + FrameText(CellText, cells, width, y)
    {
      RowStartMonotone(width, y + 1, height);
      out := AppendRow(out, front, y, start);
      Associative(buffer, FrameText(CellText, cells, width, y), RowText(CellText, cells, start, y, width));
      y, start := y + 1, start + width;
    }
  }

  /** The inner loop: appends the text of row `y`, column by column. */
  method AppendRow(buffer: string, front: FrameData, y: nat, start: nat) returns (out: string)
    requires start + front.width <= front.data.Length
    ensures out == buffer + RowText(CellText, front.data[..], start, y, front.width)
  {
    out := buffer;
    var x := 0;
    while x < front.width
      invariant 0 <= x <= front.width
      invariant out == buffer + RowText(CellText, front.data[..], start, y, x)
    {
      var text := CellText(y, x, front.data[start + x]);
      Associative(buffer, RowText(CellText, front.data[..], start, y, x), text);
      out := out + text;
      x := x + 1;
    }
  }

  /** The consumer's write buffer, empty between frames. */
  class Renderer {
    var writeBuffer: string

    ghost predicate Valid()
      reads this
    {
      writeBuffer == []
    }

    constructor ()
      ensures Valid()
    {
      writeBuffer := [];
    }

    /** Serialises the front frame into the write buffer, hands the buffer's
        contents to the terminal (returned as `written`) and clears it. */
    method Present(buffer: DoubleBuffer) returns (written: string)
      requires Valid() && buffer.Valid()
      modifies this
      ensures Valid()
      ensures written == Serialized(buffer.front.data[..], buffer.front.width, buffer.front.height)
    {
      var front := buffer.Front();
      writeBuffer := AppendFrame(writeBuffer, front);
      written := writeBuffer;
      writeBuffer := [];
    }
  }

  // ---------------------------------------------------------------------
  // The same text, cell after cell

  /** The position after (y, x) when a grid `width` wide is walked row by row. */
  function Next(width: nat, y: nat, x: nat): (nat, nat) {
    if x + 1 < width then (y, x + 1) else (y + 1, 0)
  }

  /** The text of cells `i..`, where cell `i` sits at row `y`, column `x`. */
  function FlatText(emit: CellFormatter, cells: seq<Cell>, width: nat, i: nat, y: nat, x: nat): string
    decreases |cells| - i
  {
    if i >= |cells| then []
    else
      var (y', x') := Next(width, y, x);
      emit(y, x, cells[i]) + FlatText(emit, cells, width, i + 1, y', x')
  }

  lemma {:induction false} RowThenRest(emit: CellFormatter, cells: seq<Cell>, width: nat, start: nat, y: nat, x: nat)
    requires x < width && start + width <= |cells|
    ensures RowText(emit, cells, start, y, x) + FlatText(emit, cells, width, start + x, y, x) == FlatText(emit, cells, width, start, y, 0)
  {
    if x > 0 {
      RowThenRest(emit, cells, width, start, y, x - 1);
      var text := emit(y, x - 1, cells[start + x - 1]);
      assert FlatText(emit, cells, width, start + x - 1, y, x - 1) == text + FlatText(emit, cells, width, start + x, y, x);
      Associative(RowText(emit, cells, start, y, x - 1), text, FlatText(emit, cells, width, start + x, y, x));
    }
  }

  lemma RowComplete(emit: CellFormatter, cells: seq<Cell>, width: nat, start: nat, y: nat)
    requires 0 < width && start + width <= |cells|
    ensures RowText(emit, cells, start, y, width) + FlatText(emit, cells, width, start + width, y + 1, 0) == FlatText(emit, cells, width, start, y, 0)
  {
    var x := width - 1;
    RowThenRest(emit, cells, width, start, y, x);
    var text := emit(y, x, cells[start + x]);
    assert FlatText(emit, cells, width, start + x, y, x) == text + FlatText(emit, cells, width, start + width, y + 1, 0);
    Associative(RowText(emit, cells, start, y, x), text, FlatText(emit, cells, width, start + width, y + 1, 0));
  }

  lemma {:induction false} RowsThenRest(emit: CellFormatter, cells: seq<Cell>, width: nat, y: nat)
    requires 0 < width && RowStart(width, y) <= |cells|
    ensures FrameText(emit, cells, width, y) + FlatText(emit, cells, width, RowStart(width, y), y, 0) == FlatText(emit, cells, width, 0, 0, 0)
  {
    if y > 0 {
      RowsThenRest(emit, cells, width, y - 1);
      var start := RowStart(width, y - 1);
      var before, row, after := FrameText(emit, cells, width, y - 1), RowText(emit, cells, start, y - 1, width), FlatText(emit, cells, width, start + width, y, 0);
      assert FrameText(emit, cells, width, y) == before + row;
      assert row + after == FlatText(emit, cells, width, start, y - 1, 0) by {
        RowComplete(emit, cells, width, start, y - 1);
      }
      Associative(before, row, after);
    } else {
      assert [] + FlatText(emit, cells, width, 0, 0, 0) == FlatText(emit, cells, width, 0, 0, 0);
    }
  }

  /** The nested row and column loops emit the cells one after another, in
      storage order, with the column advancing first and wrapping at the
      width. */
  lemma FrameTextIsCellByCell(cells: seq<Cell>, width: nat, height: nat)
    requires 0 < width && |cells| == width * height
    ensures Serialized(cells, width, height) == FlatText(CellText, cells, width, 0, 0, 0)
  {
    RowStartIsProduct(width, height);
    RowsThenRest(CellText, cells, width, height);
  }

  // ---------------------------------------------------------------------
  // Reading a frame's text back

  /** One cell as read back: its coordinates and its contents. */
  datatype Placed = Placed(row: nat, col: nat, cell: Cell)

  /** Strips the prefix `lit`. */
  function Literal(s: string, lit: string): (r: Option<string>)
    ensures r.Some? ==> |r.value| + |lit| == |s|
  {
    if |lit| <= |s| && s[..|lit|] == lit then Some(s[|lit|..]) else None
  }

  /** Reads a non-empty decimal digit run. */
  function Number(s: string): (r: Option<(nat, string)>)
    ensures r.Some? ==> |r.value.1| < |s|
  {
    var (digits, rest) := SplitDigits(s);
    if digits == [] then None else Some((Value(digits), rest))
  }

  /** Reads `pieces[0] n0 pieces[1] n1 ...`, a number after every piece. */
  function ParseFields(pieces: seq<string>, s: string): (r: Option<(seq<nat>, string)>)
    ensures r.Some? ==> |r.value.0| == |pieces| && |r.value.1| <= |s|
    decreases |pieces|
  {
    if pieces == [] then Some(([], s))
    else
      var s :- Literal(s, pieces[0]);
      var (n, s) :- Number(s);
      var (ns, s) :- ParseFields(pieces[1..], s);
      Some(([n] + ns, s))
  }

  /** Reads one cell's text: CUP, SGR 38;2 with colours below 256, and the
      glyph. */
  function ParseCell(s: string): (r: Option<(Placed, string)>)
    ensures r.Some? ==> |r.value.1| < |s|
  {
    var (ns, s) :- ParseFields(CELL_FIELDS, s);
    if ns[2] >= 256 || ns[3] >= 256 || ns[4] >= 256 then None
    else
      var s :- Literal(s, GLYPH_PIECE);
      if s == [] then None else Some((Placed(ns[0], ns[1], Cell(ns[2], ns[3], ns[4], s[0])), s[1..]))
  }

  /** Reads a whole frame's text, cell after cell. */
  function ParseCells(s: string): Option<seq<Placed>>
    decreases |s|
  {
    if s == [] then Some([])
    else
      var (p, rest) :- ParseCell(s);
      var ps :- ParseCells(rest);
      Some([p] + ps)
  }

  lemma LiteralPrefix(lit: string, rest: string)
    ensures Literal(lit + rest, lit) == Some(rest)
  {
    assert (lit + rest)[..|lit|] == lit;
    assert (lit + rest)[|lit|..] == rest;
  }

  lemma NumberShown(n: nat, rest: string)
    requires rest == [] || !IsDigit(rest[0])
    ensures Number(Show(n) + rest) == Some((n, rest))
  {
    SplitShown(n, rest);
    ValueOfShow(n);
  }

  /** Pieces that cannot be mistaken for the end of the number before them. */
  predicate Separators(pieces: seq<string>) {
    forall k :: 0 <= k < |pieces| ==> pieces[k] != [] && !IsDigit(pieces[k][0])
  }

  /** Numbers formatted between separator pieces are read back exactly. */
  lemma {:induction false} FieldsRoundTrip(pieces: seq<string>, ns: seq<nat>, rest: string)
    requires |pieces| == |ns| && Separators(pieces)
    requires rest == [] || !IsDigit(rest[0])
    ensures ParseFields(pieces, Format(pieces, ShowAll(ns)) + rest) == Some((ns, rest))
    decreases |ns|
  {
    if ns != [] {
      var args := ShowAll(ns);
      assert args[1..] == ShowAll(ns[1..]);
      var after := Format(pieces[1..], args[1..]) + rest;
      FormatStep(pieces, args, rest);
      if |pieces| > 1 {
        FormatStep(pieces[1..], args[1..], rest);
        assert after[0] == pieces[1][0];
      } else {
        assert after == rest;
      }
      LiteralPrefix(pieces[0], args[0] + after);
      NumberShown(ns[0], after);
      FieldsRoundTrip(pieces[1..], ns[1..], rest);
      assert [ns[0]] + ns[1..] == ns;
    } else {
      assert Format(pieces, ShowAll(ns)) + rest == rest;
    }
  }

  /** One cell's text is read back as that cell at its coordinates, whatever
      follows it. */
  lemma CellRoundTrip(y: nat, x: nat, c: Cell, rest: string)
    ensures ParseCell(CellText(y, x, c) + rest) == Some((Placed(y, x, c), rest))
  {
    var ns: seq<nat> := [y, x, c.r, c.g, c.b];
    var glyphAndRest := [c.glyph] + rest;
    var after := GLYPH_PIECE + glyphAndRest;
    var text := CellText(y, x, c) + rest;
    assert text == Format(CELL_FIELDS, ShowAll(ns)) + after by {
      FormatSnoc(CELL_FIELDS, ShowAll(ns), GLYPH_PIECE, [c.glyph], rest);
    }
    assert ParseFields(CELL_FIELDS, text) == Some((ns, after)) by {
      CellFieldsSeparate();
      assert after[0] == 'm';
      FieldsRoundTrip(CELL_FIELDS, ns, after);
    }
    assert Literal(after, GLYPH_PIECE) == Some(glyphAndRest) by {
      LiteralPrefix(GLYPH_PIECE, glyphAndRest);
    }
    assert glyphAndRest[0] == c.glyph && glyphAndRest[1..] == rest;
  }

  lemma CellFieldsSeparate()
    ensures Separators(CELL_FIELDS)
  {
    assert CELL_FIELDS[2][0] == 'H';
  }

  /** The cells `i..` as read back, cell `i` at row `y`, column `x`. */
  function PlacedFrom(cells: seq<Cell>, width: nat, i: nat, y: nat, x: nat): seq<Placed>
    decreases |cells| - i
  {
    if i >= |cells| then []
    else
      var (y', x') := Next(width, y, x);
      [Placed(y, x, cells[i])] + PlacedFrom(cells, width, i + 1, y', x')
  }

  lemma {:induction false} FlatRoundTrip(cells: seq<Cell>, width: nat, i: nat, y: nat, x: nat)
    ensures ParseCells(FlatText(CellText, cells, width, i, y, x)) == Some(PlacedFrom(cells, width, i, y, x))
    decreases |cells| - i
  {
    if i < |cells| {
      var (y', x') := Next(width, y, x);
      var rest := FlatText(CellText, cells, width, i + 1, y', x');
      CellRoundTrip(y, x, cells[i], rest);
      FlatRoundTrip(cells, width, i + 1, y', x');
    }
  }

  /** The cells of a grid `width` wide, each at the coordinates of its index. */
  function Placements(cells: seq<Cell>, width: nat): (r: seq<Placed>)
    requires 0 < width
    ensures |r| == |cells|
  {
    seq(|cells|, i requires 0 <= i < |cells| => Placed(i / width, i % width, cells[i]))
  }

  lemma {:induction false} PlacedFromIsRowMajor(cells: seq<Cell>, width: nat, i: nat, y: nat, x: nat)
    requires x < width && i == RowStart(width, y) + x && i <= |cells|
    ensures PlacedFrom(cells, width, i, y, x) == Placements(cells, width)[i..]
    decreases |cells| - i
  {
    if i < |cells| {
      RowStartIsProduct(width, y);
      RowMajor(width, y, x);
      var (y', x') := Next(width, y, x);
      PlacedFromIsRowMajor(cells, width, i + 1, y', x');
      var ps := Placements(cells, width);
      assert ps[i..] == [ps[i]] + ps[i + 1..];
    }
  }

  /** The text of a whole frame determines the frame: reading it back yields
      every cell, in row-major order, at the 0-based row i / width and column
      i % width that its index i denotes. */
  lemma FrameRoundTrip(cells: seq<Cell>, width: nat, height: nat)
    requires 0 < width && |cells| == width * height
    ensures ParseCells(Serialized(cells, width, height)) == Some(Placements(cells, width))
  {
    FrameTextIsCellByCell(cells, width, height);
    FlatRoundTrip(cells, width, 0, 0, 0);
    PlacedFromIsRowMajor(cells, width, 0, 0, 0);
  }
}
