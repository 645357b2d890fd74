/** The cell encoder of the producer thread: it overwrites the back frame in
    place, row by row, with one coloured glyph per image pixel. */
module Encoder {
  import opened Frames

  /** The filled glyph drawn for every pixel that is not fully transparent
      (U+25A0 BLACK SQUARE). */
  const FILLED: char := '\U{25A0}'

  /** One decoded RGBA pixel. */
  datatype Rgba = Rgba(r: Byte, g: Byte, b: Byte, a: Byte)

  /** A decoded still image: `rows[y][x]` is the pixel at column x of row y. */
  datatype Image = Image(width: nat, height: nat, rows: seq<seq<Rgba>>) {

    predicate WellFormed() {
      |rows| == height && forall y :: 0 <= y < |rows| ==> |rows[y]| == width
    }

    /** The image's `get_pixel(x, y)`, which panics outside the image. */
    function Pixel(x: nat, y: nat): Rgba
      requires WellFormed() && x < width && y < height
    {
      rows[y][x]
    }
  }

  /** What encoding `img` into a `width` x `height` frame demands: rows are
      chunks of `width` cells, so `width` is not zero; column `x < img.width`
      is written into `row[x]`, so the image is no wider than the frame; and
      every frame row `y` is read from the image as soon as a column is read
      at all, so the image is then at least as tall as the frame. */
  predicate CanEncode(img: Image, width: nat, height: nat) {
    img.WellFormed() && 0 < width && img.width <= width &&
    (img.width == 0 || height <= img.height)
  }

  /** The glyph rule: a fully transparent pixel becomes a blank, any other a
      filled square; the colour channels are copied through. */
  function EncodePixel(p: Rgba): (c: Cell)
    ensures c.r == p.r && c.g == p.g && c.b == p.b
    ensures c.glyph == ' ' <==> p.a == 0
    ensures c.glyph == FILLED <==> p.a != 0
  {
    Cell(p.r, p.g, p.b, if p.a == 0 then ' ' else FILLED)
  }

  /** Cell `i` of a frame after `img` is encoded over the cells `before`: the
      encoded pixel in the columns the image covers, the old cell elsewhere. */
  function EncodedAt(before: seq<Cell>, width: nat, height: nat, img: Image, i: nat): Cell
    requires |before| == width * height && CanEncode(img, width, height) && i < |before|
  {
    RowOf(width, height, i);
    if i % width < img.width then EncodePixel(img.Pixel(i % width, i / width)) else before[i]
  }

  /** The whole frame after encoding `img` over `before`. */
  function Encoded(before: seq<Cell>, width: nat, height: nat, img: Image): seq<Cell>
    requires |before| == width * height && CanEncode(img, width, height)
  {
    seq(|before|, i requires 0 <= i < |before| => EncodedAt(before, width, height, img, i))
  }

  /** The producer's loop over the rows of the back frame (sequential here;
      rows are independent, see RowOrderIrrelevant). */
  method EncodeInto(frame: FrameData, img: Image)
    requires frame.Valid() && CanEncode(img, frame.width, frame.height)
    modifies frame.data
    ensures frame.data[..] == Encoded(old(frame.data[..]), frame.width, frame.height, img)
  {
    ghost var before := frame.data[..];
    var y := 0;
    while y < frame.height
      invariant 0 <= y <= frame.height
      invariant forall i :: 0 <= i < frame.data.Length ==>
        frame.data[i] == if i < y * frame.width then EncodedAt(before, frame.width, frame.height, img, i) else before[i]
    {
      EncodeRowInto(frame, img, y, before);
      y := y + 1;
    }
  }

  /** The closure run for row `y`: writes the encoded pixel into every column
      the image covers; rows before `y` are already done, later ones still
      hold the cells of `before`. */
  method EncodeRowInto(frame: FrameData, img: Image, y: nat, ghost before: seq<Cell>)
    requires frame.Valid() && CanEncode(img, frame.width, frame.height) && y < frame.height
    requires |before| == frame.data.Length
    requires forall i :: 0 <= i < frame.data.Length ==>
      frame.data[i] == if i < y * frame.width then EncodedAt(before, frame.width, frame.height, img, i) else before[i]
    modifies frame.data
    ensures forall i :: 0 <= i < frame.data.Length ==>
      frame.data[i] == if i < (y + 1) * frame.width then EncodedAt(before, frame.width, frame.height, img, i) else before[i]
  {
    var width, height, cols := frame.width, frame.height, img.width;
    var x := 0;
    while x < cols
      invariant 0 <= x <= cols
      invariant forall i :: 0 <= i < frame.data.Length ==>
        frame.data[i] == if i < y * width + x then EncodedAt(before, width, height, img, i) else before[i]
    {
      RowMajor(width, y, x);
      RowMajorBound(width, height, y, x);
      frame.data[y * width + x] := EncodePixel(img.Pixel(x, y));
      x := x + 1;
    }
    RowBeyondImage(before, width, height, img, y);
  }

  /** The columns of row `y` beyond the image keep the old cells, and the row
      ends where the next one starts. */
  lemma RowBeyondImage(before: seq<Cell>, width: nat, height: nat, img: Image, y: nat)
    requires |before| == width * height && CanEncode(img, width, height) && y < height
    ensures (y + 1) * width == y * width + width <= |before|
    ensures forall i :: y * width + img.width <= i < y * width + width ==>
      EncodedAt(before, width, height, img, i) == before[i]
  {
    RowEnd(width, height, y);
    forall i | y * width + img.width <= i < y * width + width
      ensures EncodedAt(before, width, height, img, i) == before[i]
    {
      RowMajor(width, y, i - y * width);
    }
  }

  /** Every column the image covers receives its encoded pixel. */
  lemma EncodedCovered(before: seq<Cell>, width: nat, height: nat, img: Image, y: nat, x: nat)
    requires |before| == width * height && CanEncode(img, width, height)
    requires y < height && x < img.width
    ensures y * width + x < |before|
    ensures Encoded(before, width, height, img)[y * width + x] == EncodePixel(img.Pixel(x, y))
  {
    RowMajor(width, y, x);
    RowMajorBound(width, height, y, x);
  }

  /** Columns at or beyond the image's width keep what the frame held. */
  lemma EncodedBeyondImage(before: seq<Cell>, width: nat, height: nat, img: Image, y: nat, x: nat)
    requires |before| == width * height && CanEncode(img, width, height)
    requires y < height && img.width <= x < width
    ensures y * width + x < |before|
    ensures Encoded(before, width, height, img)[y * width + x] == before[y * width + x]
  {
    RowMajor(width, y, x);
    RowMajorBound(width, height, y, x);
  }

  /** Encoding only row `y`: the work of one band of the parallel encoder. */
  function EncodeRow(cells: seq<Cell>, width: nat, height: nat, img: Image, y: nat): (r: seq<Cell>)
    requires |cells| == width * height && CanEncode(img, width, height)
    ensures |r| == |cells|
  {
    seq(|cells|, i requires 0 <= i < |cells| =>
      if i / width == y && i % width < img.width then EncodedAt(cells, width, height, img, i) else cells[i])
  }

  /** Encoding the rows in the listed order, one after another. */
  function EncodeRows(cells: seq<Cell>, width: nat, height: nat, img: Image, order: seq<nat>): (r: seq<Cell>)
    requires |cells| == width * height && CanEncode(img, width, height)
    ensures |r| == |cells|
    decreases |order|
  {
    if order == [] then cells
    else EncodeRows(EncodeRow(cells, width, height, img, order[0]), width, height, img, order[1..])
  }

  /** After any schedule of rows, a cell holds its encoded pixel exactly when
      its row was scheduled and its column is covered by the image. */
  lemma {:induction false} EncodeRowsAt(cells: seq<Cell>, width: nat, height: nat, img: Image, order: seq<nat>, i: nat)
    requires |cells| == width * height && CanEncode(img, width, height) && i < |cells|
    ensures EncodeRows(cells, width, height, img, order)[i] ==
      if i / width in order then EncodedAt(cells, width, height, img, i) else cells[i]
    decreases |order|
  {
    if order != [] {
      var next := EncodeRow(cells, width, height, img, order[0]);
      EncodeRowsAt(next, width, height, img, order[1..], i);
      assert order == [order[0]] + order[1..];
    }
  }

  /** Rows are independent: encoding them in any order, with repeats, gives
      the same frame as the row loop, as long as every row is scheduled. */
  lemma RowOrderIrrelevant(cells: seq<Cell>, width: nat, height: nat, img: Image, order: seq<nat>)
    requires |cells| == width * height && CanEncode(img, width, height)
    requires forall y :: 0 <= y < height ==> y in order
    ensures EncodeRows(cells, width, height, img, order) == Encoded(cells, width, height, img)
  {
    forall i | 0 <= i < |cells|
      ensures EncodeRows(cells, width, height, img, order)[i] == Encoded(cells, width, height, img)[i]
    {
      RowOf(width, height, i);
      EncodeRowsAt(cells, width, height, img, order, i);
    }
  }
}
