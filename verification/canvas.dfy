/**
 * The pixel buffer: `width` x `height` colours, stored as `height` rows of
 * `width` entries, with bounds-checked reads and writes, and a row-major
 * cursor (`_x`, `_y` in the source) that the iterator advances and rewinds.
 */
module Canvases {
  import opened Options
  import opened Colors
  import opened Seqs

  /**
   * What a row-major walk over `rows` still has to visit from column `x` of
   * row `y`: the rest of that row, then the rows below; nothing once `y` is
   * past the last row.
   */
  ghost function Pending(rows: seq<seq<Color>>, x: nat, y: nat): seq<Color>
    decreases |rows| - y
  {
    if |rows| <= y then []
    else (if x <= |rows[y]| then rows[y][x..] else []) + Pending(rows, 0, y + 1)
  }

  /** From the start of row `y`, the walk visits every row from `y` on, in order. */
  lemma {:induction false} PendingRows(rows: seq<seq<Color>>, y: nat)
    requires y <= |rows|
    ensures Pending(rows, 0, y) == Concat(rows[y..])
    decreases |rows| - y
  {
    if y < |rows| {
      PendingRows(rows, y + 1);
      assert rows[y..][1..] == rows[y + 1..];
      assert rows[y][0..] == rows[y];
    }
  }

  /** Pending spelled out: the rest of row `y` from column `x`, then every later row. */
  lemma PendingIsSuffix(rows: seq<seq<Color>>, x: nat, y: nat)
    requires y < |rows| && x <= |rows[y]|
    ensures Pending(rows, x, y) == rows[y][x..] + Concat(rows[y + 1..])
  {
    PendingRows(rows, y + 1);
  }

  /**
   * Where one step of the iterator moves the cursor from (x, y): to the next
   * column, to the start of the next row, or, from past the last row, back
   * to the first row.
   */
  function Step(width: nat, height: nat, x: nat, y: nat): (next: (nat, nat))
    ensures y < height && x < width ==> next.1 * width + next.0 == y * width + x + 1
    ensures y < height && x < width ==> next.1 <= height && (next.1 == height ==> next.0 == 0)
    ensures y == height ==> next.1 == 0
  {
    if y == height then (x, 0)
    else if x + 1 == width then (0, y + 1)
    else (x + 1, y)
  }

  class Canvas {
    var width: nat
    var height: nat
    var pixels: seq<seq<Color>>
    /** Column of the next pixel the iterator yields. */
    var cursorX: nat
    /** Row of the next pixel the iterator yields; `height` once every pixel has been yielded. */
    var cursorY: nat

    /** `height` rows of `width` entries, and the cursor inside the grid or just past its last row. */
    ghost predicate Valid()
      reads this
    {
      && |pixels| == height
      && Uniform(pixels, width)
      && (width == 0 ==> cursorY == 0)
      && (0 < width ==> cursorX < width && cursorY <= height && (cursorY == height ==> cursorX == 0))
    }

    /** The row-major index of the cursor. */
    ghost function Cursor(): nat
      reads this
    {
      cursorY * width + cursorX
    }

    /** All pixels in row-major order. */
    ghost function RowMajor(): seq<Color>
      reads this
    {
      Concat(pixels)
    }

    /** The pixels the iterator has still to yield, in the order it yields them. */
    ghost function Remaining(): seq<Color>
      reads this
    {
      Pending(pixels, cursorX, cursorY)
    }

    lemma CursorInRange()
      requires Valid()
      ensures 0 < width ==> |RowMajor()| == height * width && Cursor() <= height * width
      ensures 0 < width ==> (Cursor() == height * width <==> cursorY == height)
    {
      if 0 < width {
        ConcatLength(pixels, width);
        if cursorY < height {
          MulStep(cursorY, height, width);
        }
      }
    }

    /** `Canvas::new`: every pixel black, cursor at the first pixel. */
    constructor (width: nat, height: nat)
      ensures Valid()
      ensures this.width == width && this.height == height
      ensures cursorX == 0 && cursorY == 0
      ensures forall x: nat, y: nat :: x < width && y < height ==> ReadPixel(x, y) == Some(Black)
      ensures Remaining() == RowMajor()
    {
      var rows: seq<seq<Color>> := [];
      var j := 0;
      while j < height
        invariant j <= height && |rows| == j
        invariant forall r :: 0 <= r < j ==> rows[r] == seq(width, _ => Black)
      {
        var row: seq<Color> := [];
        var i := 0;
        while i < width
          invariant i <= width && row == seq(i, _ => Black)
        {
          row := row + [Black];
          i := i + 1;
        }
        rows := rows + [row];
        j := j + 1;
      }
      ConcatLength(rows, width);
      PendingRows(rows, 0);
      assert rows[0..] == rows;
      this.width := width;
      this.height := height;
      pixels := rows;
      cursorX := 0;
      cursorY := 0;
    }

    /** `read_pixel`: the colour at (x, y), or nothing outside the grid. */
    function ReadPixel(x: nat, y: nat): (c: Option<Color>)
      reads this
      requires Valid()
      ensures c.Some? <==> x < width && y < height
      ensures c.Some? ==> c.value == pixels[y][x]
    {
      if x < width && y < height then Some(pixels[y][x]) else None
    }

    /** `write_pixel`: sets one pixel in place; a write outside the grid is ignored. */
    method WritePixel(x: nat, y: nat, color: Color)
      requires Valid()
      modifies this
      ensures Valid()
      ensures width == old(width) && height == old(height)
      ensures cursorX == old(cursorX) && cursorY == old(cursorY)
      ensures x < width && y < height ==> ReadPixel(x, y) == Some(color)
      ensures forall i: nat, j: nat :: (i != x || j != y) ==> ReadPixel(i, j) == old(ReadPixel(i, j))
      ensures !(x < width && y < height) ==> pixels == old(pixels)
    {
      if x < width && y < height {
        pixels := pixels[y := pixels[y][x := color]];
      }
    }

    /**
     * `Iterator::next`: yields the pixel under the cursor and advances it row by row;
     * at the end it yields nothing and moves the cursor back to the first row.
     */
    method Next() returns (item: Option<Color>)
      requires Valid()
      modifies this
      ensures Valid()
      ensures width == old(width) && height == old(height) && pixels == old(pixels)
      ensures item == old(ReadPixel(cursorX, cursorY))
      ensures (cursorX, cursorY) == Step(width, height, old(cursorX), old(cursorY))
      // The same in terms of the row-major sequence of pixels:
      ensures item.None? <==> Pending(pixels, old(cursorX), old(cursorY)) == []
      ensures item.Some? ==> [item.value] + Pending(pixels, cursorX, cursorY) == Pending(pixels, old(cursorX), old(cursorY))
    {
      var x, y := cursorX, cursorY;
      if cursorY == height {
        cursorY := 0;
        return None;
      }
      cursorX := cursorX + 1;
      if cursorX == width {
        cursorX := 0;
        cursorY := cursorY + 1;
      }
      item := ReadPixel(x, y);
      if width == 0 {
        PendingRows(pixels, y + 1);
        ConcatLength(pixels[y + 1..], 0);
      } else {
        assert pixels[y][x..] == [pixels[y][x]] + pixels[y][x + 1..];
      }
    }

    /** With the cursor on the first pixel, the iterator has the whole canvas still to yield. */
    lemma FromStart()
      requires cursorX == 0 && cursorY == 0
      ensures Remaining() == RowMajor()
    {
      PendingRows(pixels, 0);
      assert pixels[0..] == pixels;
    }

    /** Remaining is the row-major sequence from the cursor's row-major index on. */
    lemma RemainingFromCursor()
      requires Valid() && 0 < width
      ensures Cursor() <= |RowMajor()| && Remaining() == RowMajor()[Cursor()..]
    {
      CursorInRange();
      if cursorY < height {
        var y := cursorY;
        PendingIsSuffix(pixels, cursorX, y);
        assert pixels == pixels[..y] + [pixels[y]] + pixels[y + 1..];
        ConcatAppend(pixels[..y] + [pixels[y]], pixels[y + 1..]);
        ConcatAppend(pixels[..y], [pixels[y]]);
        assert Concat([pixels[y]]) == pixels[y] + Concat([]);
        ConcatLength(pixels[..y], width);
        assert RowMajor() == Concat(pixels[..y]) + pixels[y] + Concat(pixels[y + 1..]);
      } else {
        assert Cursor() == |RowMajor()|;
      }
    }

    /** The k-th pixel in row-major order is the one at column `k % width` of row `k / width`. */
    lemma RowMajorIndex(k: nat)
      requires Valid() && 0 < width && k < height * width
      ensures k < |RowMajor()|
      ensures ReadPixel(k % width, k / width) == Some(RowMajor()[k])
    {
      var x, y := k % width, k / width;
      assert k == y * width + x;
      DivBelow(k, height, width);
      ConcatUniform(pixels, width, y, x);
    }

    static lemma DivBelow(k: nat, h: nat, w: nat)
      requires 0 < w && k < h * w
      ensures k / w < h
    {
    }

    static lemma MulStep(a: int, b: int, w: int)
      requires a < b && 0 < w
      ensures a * w + w <= b * w
    {
      var d := b - a - 1;
      assert 0 <= d * w;
      assert b * w == (a + 1 + d) * w == a * w + w + d * w;
    }
  }

  /**
   * The Rust implementation's write tests on a 20 x 10 canvas: a written pixel
   * reads back, its neighbour stays black, and writes outside the grid leave
   * nothing to read there.
   */
  method WriteAndReadExample() returns (written: Option<Color>, neighbour: Option<Color>, right: Option<Color>, below: Option<Color>)
    ensures written == Some(Color(1.0, 0.0, 0.0)) && neighbour == Some(Black)
    ensures right == None && below == None
  {
    var c := new Canvas(20, 10);
    var red := Color(1.0, 0.0, 0.0);
    c.WritePixel(2, 3, red);
    written := c.ReadPixel(2, 3);
    neighbour := c.ReadPixel(2, 2);
    c.WritePixel(21, 3, red);
    c.WritePixel(2, 13, red);
    right := c.ReadPixel(20, 3);
    below := c.ReadPixel(2, 13);
  }

  /**
   * The Rust implementation's iteration test on a 20 x 10 canvas with red at
   * (10, 3) and (2, 5): walking the rows in order, call number `20 y + x`
   * yields pixel (x, y); the call after the last pixel yields nothing and the
   * cursor is back at the first pixel.
   */
  method IterateExample() returns (yielded: seq<Option<Color>>, last: Option<Color>)
    ensures |yielded| == 200
    ensures yielded[3 * 20 + 10] == Some(Color(1.0, 0.0, 0.0)) && yielded[5 * 20 + 2] == Some(Color(1.0, 0.0, 0.0))
    ensures yielded[0] == Some(Black) && yielded[199] == Some(Black)
    ensures last == None
  {
    var c := new Canvas(20, 10);
    var red := Color(1.0, 0.0, 0.0);
    c.WritePixel(10, 3, red);
    c.WritePixel(2, 5, red);
    ghost var pixels := c.pixels;
    assert c.ReadPixel(10, 3) == Some(red) && c.ReadPixel(2, 5) == Some(red);
    assert c.ReadPixel(0, 0) == Some(Black) && c.ReadPixel(19, 9) == Some(Black);
    yielded := [];
    var y := 0;
    while y < 10
      invariant y <= 10 && c.Valid() && c.width == 20 && c.height == 10 && c.pixels == pixels
      invariant c.cursorX == 0 && c.cursorY == y
      invariant |yielded| == 20 * y
      invariant forall j: nat, i: nat :: j < y && i < 20 ==> yielded[20 * j + i] == Some(pixels[j][i])
    {
      var x := 0;
      while x < 20
        invariant x <= 20 && c.Valid() && c.width == 20 && c.height == 10 && c.pixels == pixels
        invariant x < 20 ==> c.cursorX == x && c.cursorY == y
        invariant x == 20 ==> c.cursorX == 0 && c.cursorY == y + 1
        invariant |yielded| == 20 * y + x
        invariant forall j: nat, i: nat :: (j < y && i < 20) || (j == y && i < x) ==> yielded[20 * j + i] == Some(pixels[j][i])
        modifies c
      {
        var item := c.Next();
        yielded := yielded + [item];
        x := x + 1;
      }
      y := y + 1;
    }
    assert yielded[20 * 3 + 10] == Some(pixels[3][10]) && yielded[20 * 5 + 2] == Some(pixels[5][2]);
    assert yielded[20 * 0 + 0] == Some(pixels[0][0]) && yielded[20 * 9 + 19] == Some(pixels[9][19]);
    last := c.Next();
  }
}
