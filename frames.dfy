/** Frame storage: one terminal cell per grid position, and the double
    buffer that hands frames from the encoder thread to the render thread by
    exchanging roles, never by copying cells. */
module Frames {

  const U32_MAX: nat := 0xFFFF_FFFF

  /** An 8-bit colour channel. */
  type Byte = b: int | 0 <= b < 256

  /** One terminal cell: a 24-bit foreground colour and the glyph drawn in it. */
  datatype Cell = Cell(r: Byte, g: Byte, b: Byte, glyph: char)

  /** The cell every frame starts with: black, blank glyph. */
  const BLANK: Cell := Cell(0, 0, 0, ' ')

  /** Multiplication by a width is monotone. */
  lemma {:induction false} MulMonotone(a: nat, b: nat, width: nat)
    requires a <= b
    ensures a * width <= b * width
  {
    if a < b {
      MulMonotone(a, b - 1, width);
      assert b * width == (b - 1) * width + width;
    }
  }

  /** Row-major addressing: cell (x, y) of a grid `width` cells wide sits at
      `y * width + x`, and that index gives (x, y) back by division. */
  lemma RowMajor(width: nat, y: nat, x: nat)
    requires x < width
    ensures (y * width + x) / width == y && (y * width + x) % width == x
  {
    var i := y * width + x;
    var q, m := i / width, i % width;
    assert i == q * width + m && 0 <= m < width;
    if q < y {
      MulMonotone(q + 1, y, width);
      assert false;
    } else if q > y {
      MulMonotone(y + 1, q, width);
      assert false;
    }
  }

  /** A cell of row `y < height` lies inside a `width * height` grid. */
  lemma RowMajorBound(width: nat, height: nat, y: nat, x: nat)
    requires y < height && x < width
    ensures y * width + x < width * height
  {
    MulMonotone(y + 1, height, width);
    assert (y + 1) * width == y * width + width;
    assert height * width == width * height;
  }

  /** The index of the first cell of row `y` in a grid `width` cells wide,
      counted row by row as a loop over the rows advances it. */
  function RowStart(width: nat, y: nat): nat {
    if y == 0 then 0 else RowStart(width, y - 1) + width
  }

  lemma {:induction false} RowStartIsProduct(width: nat, y: nat)
    ensures RowStart(width, y) == y * width
  {
    if y > 0 {
      RowStartIsProduct(width, y - 1);
    }
  }

  lemma {:induction false} RowStartMonotone(width: nat, y: nat, z: nat)
    requires y <= z
    ensures RowStart(width, y) <= RowStart(width, z)
    decreases z
  {
    if y < z {
      RowStartMonotone(width, y, z - 1);
    }
  }

  /** Row `y < height` of a `width * height` grid ends inside the grid, where
      the next row starts. */
  lemma RowEnd(width: nat, height: nat, y: nat)
    requires y < height
    ensures y * width + width == (y + 1) * width <= width * height
  {
    MulMonotone(y + 1, height, width);
  }

  /** Every index of a `width * height` grid is the cell (i % width, i / width)
      of one of its rows. */
  lemma RowOf(width: nat, height: nat, i: nat)
    requires i < width * height
    ensures 0 < width && i / width < height && i == i / width * width + i % width
  {
    var q := i / width;
    if q >= height {
      MulMonotone(height, q, width);
      assert false;
    }
  }

  /** A `width` x `height` grid stored row by row: cell (x, y) is
      `data[y * width + x]`. The dimensions are fixed at construction; only
      the cells are overwritten. */
  class FrameData {
    const width: nat
    const height: nat
    const data: array<Cell>

    ghost predicate Valid() {
      width <= U32_MAX && height <= U32_MAX && width * height <= U32_MAX &&
      data.Length == width * height
    }

    /** `FrameData { width, height, data: vec![(0, 0, 0, ' '); width * height] }`;
        the product is a `u32`, so it must not overflow. */
    constructor Blank(width: nat, height: nat)
      requires width <= U32_MAX && height <= U32_MAX && width * height <= U32_MAX
      ensures Valid() && fresh(data)
      ensures this.width == width && this.height == height
      ensures data[..] == seq(width * height, _ => BLANK)
    {
      this.width := width;
      this.height := height;
      data := new Cell[width * height](_ => BLANK);
    }
  }

  /** Two frame slots under two roles: `front` is read by the render thread,
      `back` is written by the encoder thread. */
  class DoubleBuffer {
    var front: FrameData
    var back: FrameData

    /** The roles never alias, both slots keep the same fixed grid, and so
        every slot holds the same number of cells. */
    ghost predicate Valid()
      reads this
    {
      front != back && front.data != back.data &&
      front.Valid() && back.Valid() &&
      front.width == back.width && front.height == back.height
    }

    constructor (width: nat, height: nat)
      requires width <= U32_MAX && height <= U32_MAX && width * height <= U32_MAX
      ensures Valid()
      ensures fresh(front) && fresh(back) && fresh(front.data) && fresh(back.data)
      ensures front.width == width && front.height == height
      ensures back.width == width && back.height == height
      ensures front.data[..] == seq(width * height, _ => BLANK)
      ensures back.data[..] == seq(width * height, _ => BLANK)
    {
      front := new FrameData.Blank(width, height);
      back := new FrameData.Blank(width, height);
    }

    /** Exchanges the roles: load `back`, atomically swap it into `front`,
        store the old front into `back`. No cell of either slot is touched. */
    method Swap()
      requires Valid()
      modifies this
      ensures Valid()
      ensures front == old(back) && back == old(front)
      ensures unchanged(front.data) && unchanged(back.data)
    {
      var backSlot := back;
      var frontSlot := front;
      front := backSlot;
      back := frontSlot;
    }

    /** The slot the render thread reads. */
    function Front(): (f: FrameData)
      requires Valid()
      reads this
      ensures f.Valid() && f != back && f.data != back.data
    {
      front
    }

    /** The slot the encoder thread overwrites. */
    function BackMut(): (f: FrameData)
      requires Valid()
      reads this
      ensures f.Valid() && f != front && f.data != front.data
    {
      back
    }
  }

  /** The side of the square of screen pixels one terminal cell stands for. */
  const CELL_SIZE: nat := 10

  /** The player's buffer: a 1920 x 1080 picture at one cell per
      `CELL_SIZE` x `CELL_SIZE` pixels, 192 x 108 cells, all blank. */
  method NewPlayerBuffer() returns (buffer: DoubleBuffer)
    ensures buffer.Valid() && fresh(buffer.front.data) && fresh(buffer.back.data)
    ensures buffer.front.width == 192 && buffer.front.height == 108
    ensures buffer.front.data[..] == seq(192 * 108, _ => BLANK)
    ensures buffer.back.data[..] == seq(192 * 108, _ => BLANK)
  {
    buffer := new DoubleBuffer(1920 / CELL_SIZE, 1080 / CELL_SIZE);
  }

  /** Two swaps give every slot its original role back. */
  method SwapTwice(buffer: DoubleBuffer)
    requires buffer.Valid()
    modifies buffer
    ensures buffer.Valid()
    ensures buffer.front == old(buffer.front) && buffer.back == old(buffer.back)
    ensures unchanged(buffer.front.data) && unchanged(buffer.back.data)
  {
    buffer.Swap();
    buffer.Swap();
  }
}
