/** The text buffer of drivers/video/vga.c: two bytes a cell, the character and its colour. */
module Vga {
  import opened Canvas
  import Memory

  type Byte = x: int | 0 <= x < 256

  const CELLS := WIDTH * HEIGHT

  /** The character bytes of all cells, row by row. */
  function Screen(bytes: seq<Byte>): (s: string)
    requires |bytes| == 2 * CELLS
    ensures |s| == CELLS
  {
    seq(CELLS, i requires 0 <= i < CELLS => bytes[2 * i] as char)
  }

  class TextBuffer {
    const buffer: array<Byte>

    ghost predicate Valid() { buffer.Length == 2 * CELLS }

    constructor ()
      ensures Valid() && fresh(buffer)
    {
      buffer := new Byte[2 * CELLS](_ => 0);
    }

    /** vga_write; the caller's colours give the colour byte. A character of 128 or more is
        negative as a signed char, and its sign bits fill that byte. */
    method Write(c: char, x: nat, y: nat, colour: Byte)
      requires Valid() && c as int < 256
      modifies buffer
      ensures x < WIDTH && y < HEIGHT ==> buffer[2 * Pos(x, y) + 1] == if c as int < 128 then colour else 255
      ensures Screen(buffer[..]) ==
        if x < WIDTH && y < HEIGHT then Screen(old(buffer[..]))[Pos(x, y) := c] else Screen(old(buffer[..]))
    {
      if x >= WIDTH || y >= HEIGHT {
        return;
      }
      buffer[2 * (y * WIDTH + x)] := c as int;
      buffer[2 * (y * WIDTH + x) + 1] := if c as int < 128 then colour else 255;
    }

    /** memset16 over `count` cells from `from` on. */
    method Fill(from: nat, count: nat, c: char, colour: Byte)
      requires Valid() && from + count <= CELLS && c as int < 256
      modifies buffer
      ensures Screen(buffer[..]) == Screen(old(buffer[..]))[..from] + seq(count, _ => c) + Screen(old(buffer[..]))[from + count..]
    {
      var i := from;
      while i < from + count
        invariant from <= i <= from + count
        invariant forall k :: from <= k < i ==> buffer[2 * k] == c as int
        invariant forall k :: 0 <= k < CELLS && !(from <= k < i) ==> buffer[2 * k] == old(buffer[2 * k])
      {
        buffer[2 * i] := c as int;
        buffer[2 * i + 1] := colour;
        i := i + 1;
      }
      assert forall k :: 0 <= k < CELLS ==>
        Screen(buffer[..])[k] == if from <= k < from + count then c else Screen(old(buffer[..]))[k];
    }

    /** vga_clear. */
    method Clear(colour: Byte)
      requires Valid()
      modifies buffer
      ensures Screen(buffer[..]) == Blanks(CELLS)
    {
      Fill(0, CELLS, ' ', colour);
    }

    /** vga_scroll: memcpy moves 24 rows up over themselves, then the last row is blanked. */
    method Scroll()
      requires Valid()
      modifies buffer
      ensures Screen(buffer[..]) == Screen(old(buffer[..]))[WIDTH..] + Blanks(WIDTH)
    {
      ghost var b0 := buffer[..];
      Memory.Memcpy(buffer, 0, 2 * WIDTH, WIDTH * (HEIGHT - 1) * 2);
      ghost var b1 := buffer[..];
      Memory.MovesWhenNotInside(b0, 0, 2 * WIDTH, WIDTH * (HEIGHT - 1) * 2);
      assert forall k :: 0 <= k < CELLS - WIDTH ==> Screen(b1)[k] == Screen(b0)[k + WIDTH];
      Fill(WIDTH * (HEIGHT - 1), WIDTH, ' ', 0x07);
    }
  }
}
