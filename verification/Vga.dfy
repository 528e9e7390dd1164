/** The framebuffer: three bytes a pixel, blue, green, red. */
module Vga {
  import opened Bytes

  const WIDTH := 800
  const HEIGHT := 600
  const PITCH := 2400
  const SIZE := 1440000

  // ----- where a byte of the framebuffer is on the screen

  function PixelX(i: nat): nat {
    i % PITCH / 3
  }

  function PixelY(i: nat): nat {
    i / PITCH
  }

  /** The byte of a colour for channel k: 0 blue, 1 green, 2 red. */
  function ColorByte(color: u32, k: nat): byte
    requires k < 3
  {
    if k == 0 then color % 0x100 else if k == 1 then color / 0x100 % 0x100 else color / 0x1_0000 % 0x100
  }

  predicate InBox(i: nat, x: int, y: int, width: int, height: int) {
    x <= PixelX(i) < x + width && y <= PixelY(i) < y + height
  }

  /** The three bytes of a pixel. */
  lemma PixelPlace(x: nat, y: nat, j: nat)
    requires x < WIDTH && j < 3
    ensures PixelX(y * PITCH + x * 3 + j) == x && PixelY(y * PITCH + x * 3 + j) == y && (y * PITCH + x * 3 + j) % 3 == j
  {
    var i := y * PITCH + x * 3 + j;
    assert i / PITCH == y;
    assert i % PITCH == x * 3 + j;
  }

  lemma PlaceOfByte(i: nat)
    ensures i == PixelY(i) * PITCH + PixelX(i) * 3 + i % 3 && PixelX(i) < WIDTH
  {
    var r := i % PITCH;
    assert r % 3 == i % 3 && r == r / 3 * 3 + r % 3;
  }

  lemma OffsetOf(x: nat, y: nat, i: nat)
    requires x < WIDTH && y < HEIGHT
    ensures var offset := y * WIDTH * 3 + x * 3;
      && offset + 2 < SIZE
      && (PixelX(i) == x && PixelY(i) == y <==> offset <= i < offset + 3)
      && (offset <= i < offset + 3 ==> i - offset == i % 3)
  {
    var offset := y * WIDTH * 3 + x * 3;
    assert offset == y * PITCH + x * 3;
    PlaceOfByte(i);
    if offset <= i < offset + 3 {
      PixelPlace(x, y, i - offset);
    }
  }

  lemma OnScreen(i: nat)
    requires i < SIZE
    ensures PixelX(i) < WIDTH && PixelY(i) < HEIGHT
  {
  }

  class Framebuffer {
    const mem: array<byte>

    constructor ()
      ensures mem.Length == SIZE && fresh(mem) && forall i :: 0 <= i < SIZE ==> mem[i] == 0
    {
      mem := new byte[SIZE](_ => 0);
    }

    method PutPixel(x: int, y: int, color: u32)
      requires mem.Length == SIZE
      modifies mem
      ensures forall i :: 0 <= i < SIZE ==>
        mem[i] == if InBox(i, x, y, 1, 1) then ColorByte(color, i % 3) else old(mem[i])
      ensures 0 <= x < 800 && 0 <= y < 600 ==> var n := 2400 * y + 3 * x;
        mem[n] == color % 0x100 && mem[n + 1] == color / 0x100 % 0x100 && mem[n + 2] == color / 0x1_0000 % 0x100
      ensures !(0 <= x < 800 && 0 <= y < 600) ==> mem[..] == old(mem[..])
    {
      if 0 <= x < WIDTH && 0 <= y < HEIGHT {
        var offset := y * WIDTH * 3 + x * 3;
        OffsetOf(x, y, offset);
        mem[offset] := color % 0x100;
        mem[offset + 1] := color / 0x100 % 0x100;
        mem[offset + 2] := color / 0x1_0000 % 0x100;
        forall i: nat | i < SIZE
          ensures mem[i] == if InBox(i, x, y, 1, 1) then ColorByte(color, i % 3) else old(mem[i])
        {
          OffsetOf(x, y, i);
        }
      } else {
        forall i: nat | i < SIZE
          ensures !InBox(i, x, y, 1, 1)
        {
          OnScreen(i);
        }
      }
    }

    /** The colour of a pixel, black off the screen. */
    function PixelAt(x: int, y: int): u32
      requires mem.Length == SIZE
      reads mem
    {
      PixelIn(mem[..], x, y)
    }

    method GetPixel(x: int, y: int) returns (color: u32)
      requires mem.Length == SIZE
      ensures color == PixelAt(x, y)
    {
      if 0 <= x < WIDTH && 0 <= y < HEIGHT {
        var offset := y * WIDTH * 3 + x * 3;
        var b, g, r := mem[offset], mem[offset + 1], mem[offset + 2];
        return r as int * 0x1_0000 + g as int * 0x100 + b as int;
      }
      return 0;
    }

    method DrawRectangle(x: int, y: int, width: nat, height: nat, color: u32)
      requires mem.Length == SIZE
      modifies mem
      ensures forall i :: 0 <= i < SIZE ==>
        mem[i] == if InBox(i, x, y, width, height) then ColorByte(color, i % 3) else old(mem[i])
    {
      for row := 0 to height
        invariant forall i :: 0 <= i < SIZE ==>
          mem[i] == if InBox(i, x, y, width, row) then ColorByte(color, i % 3) else old(mem[i])
      {
        DrawRow(x, y + row, width, color);
      }
    }

    method DrawRow(x: int, y: int, width: nat, color: u32)
      requires mem.Length == SIZE
      modifies mem
      ensures forall i :: 0 <= i < SIZE ==>
        mem[i] == if InBox(i, x, y, width, 1) then ColorByte(color, i % 3) else old(mem[i])
    {
      for col := 0 to width
        invariant forall i :: 0 <= i < SIZE ==>
          mem[i] == if InBox(i, x, y, col, 1) then ColorByte(color, i % 3) else old(mem[i])
      {
        PutPixel(x + col, y, color);
      }
    }
  }

  /** The colour of a pixel in the bytes of a framebuffer. */
  function PixelIn(bytes: seq<byte>, x: int, y: int): u32
    requires |bytes| == SIZE
  {
    if 0 <= x < WIDTH && 0 <= y < HEIGHT then
      var offset := y * WIDTH * 3 + x * 3;
      bytes[offset + 2] as int * 0x1_0000 + bytes[offset + 1] as int * 0x100 + bytes[offset] as int
    else 0
  }

  /** Reading a pixel and writing it back is the identity on its bytes. */
  lemma PixelBytes(bytes: seq<byte>, i: nat)
    requires |bytes| == SIZE && i < SIZE
    ensures ColorByte(PixelIn(bytes, PixelX(i), PixelY(i)), i % 3) == bytes[i]
  {
    OnScreen(i);
    OffsetOf(PixelX(i), PixelY(i), i);
    var offset := PixelY(i) * WIDTH * 3 + PixelX(i) * 3;
    var b, g, r := bytes[offset] as int, bytes[offset + 1] as int, bytes[offset + 2] as int;
    Channels(b, g, r);
    assert i == offset + i % 3;
  }

  lemma Channels(b: int, g: int, r: int)
    requires 0 <= b < 0x100 && 0 <= g < 0x100 && 0 <= r < 0x100
    ensures var color := r * 0x1_0000 + g * 0x100 + b;
      color % 0x100 == b && color / 0x100 % 0x100 == g && color / 0x1_0000 % 0x100 == r
  {
    var color := r * 0x1_0000 + g * 0x100 + b;
    assert color / 0x100 == r * 0x100 + g;
    assert color / 0x1_0000 == r;
  }
}
