/** The terminal in numbers: what each character does to the grid, and which pixels a cell lights. */
module Drawing {
  import opened Bytes
  import opened Vga
  import opened Numbers
  import opened Screen

  // ----- what a character does to the grid

  /** The cells moved up by one row, over a blank one. */
  function RowUp(cells: grid): grid {
    seq(1850, n requires 0 <= n < 1850 => if n < 1800 then cells[n + 50] else Blank)
  }

  /** The text with these cells and the cursor at place n; behind the last place everything moves up by one row. */
  function Placed(cells: grid, n: int, color: u32): Text
    requires 0 <= n <= 1850
  {
    if n < 1850 then Text(cells, n / 50, n % 50, color) else Text(RowUp(cells), 36, 0, color)
  }

  /** The cursor's place, counted from the top left. */
  function Place(t: Text): int {
    50 * t.row + t.col
  }

  lemma MovesUp(cells: grid)
    ensures MovedUp(cells) == RowUp(cells)
  {
    forall n | 0 <= n < 1850
      ensures MovedUp(cells)[n] == RowUp(cells)[n]
    {
    }
  }

  /** The characters 32 to 127 are drawn at the cursor. */
  lemma DrawsGlyph(t: Text, c: byte)
    requires t.Valid() && 32 <= c <= 127
    ensures PutChar(t, c) == Placed(t.cells[Place(t) := Glyph(c, t.color)], Place(t) + 1, t.color)
  {
    MovesUp(t.cells[Place(t) := Glyph(c, t.color)]);
  }

  /** The others but line feed and backspace draw nothing; the cursor moves on. */
  lemma DrawsNothing(t: Text, c: byte)
    requires t.Valid() && (c < 32 || c > 127) && c != 10 && c != 8
    ensures PutChar(t, c) == Placed(t.cells, Place(t) + 1, t.color)
  {
    MovesUp(t.cells);
  }

  /** A line feed moves to the start of the next row. */
  lemma LineFeeds(t: Text)
    requires t.Valid()
    ensures PutChar(t, 10) == Placed(t.cells, 50 * (t.row + 1), t.color)
  {
    MovesUp(t.cells);
  }

  /** A backspace moves back by one place and blanks it; in the first place it stays. */
  lemma StepsBack(t: Text)
    requires t.Valid()
    ensures var n := if Place(t) == 0 then 0 else Place(t) - 1;
      PutChar(t, 8) == Placed(t.cells[n := Blank], n, t.color)
  {
  }

  // ----- which pixels a cell lights

  /** Whether the pixel at (x, y) of a white character is lit. */
  function Lit(f: font, c: byte, x: nat, y: nat): nat
    requires c < 128 && x < 16 && y < 16
  {
    if CellByte(f, Glyph(c, 0xFF_FFFF), x, y, 0) == 255 then 1 else 0
  }

  lemma LitBit(f: font, c: byte, j: nat, y: nat, d: nat)
    requires c < 128 && j < 8 && y < 16 && d == [128, 64, 32, 16, 8, 4, 2, 1][j]
    ensures Lit(f, c, 2 * j, y) == f[c][y / 2] / d % 2
  {
  }

  lemma Halves(b: byte)
    ensures b / 4 == b / 2 / 2 && b / 8 == b / 4 / 2 && b / 16 == b / 8 / 2 && b / 32 == b / 16 / 2
    ensures b / 64 == b / 32 / 2 && b / 128 == b / 64 / 2 && b / 128 < 2
  {
  }

  /** A byte from its bits, the highest first. */
  lemma BinaryForm(b: byte, l: seq<nat>)
    requires |l| == 8 && l[0] == b / 128 % 2 && l[1] == b / 64 % 2 && l[2] == b / 32 % 2 && l[3] == b / 16 % 2
    requires l[4] == b / 8 % 2 && l[5] == b / 4 % 2 && l[6] == b / 2 % 2 && l[7] == b / 1 % 2
    ensures b == 128 * l[0] + 64 * l[1] + 32 * l[2] + 16 * l[3] + 8 * l[4] + 4 * l[5] + 2 * l[6] + l[7]
  {
    Halves(b);
    assert b / 32 == 4 * l[0] + 2 * l[1] + l[2];
    assert b / 4 == 8 * (b / 32) + 4 * l[3] + 2 * l[4] + l[5];
  }

  /** The lit pixels of a row of a cell, every second one, from left to right. */
  function LitRow(f: font, c: byte, y: nat): (l: seq<nat>)
    requires c < 128 && y < 16
    ensures |l| == 8
  {
    seq(8, j requires 0 <= j < 8 => Lit(f, c, 2 * j, y))
  }

  /** Read from left to right they are the binary form of the font's byte for the row. */
  lemma RowIsByte(f: font, c: byte, y: nat)
    requires c < 128 && y < 16
    ensures var l := LitRow(f, c, y);
      f[c][y / 2] == 128 * l[0] + 64 * l[1] + 32 * l[2] + 16 * l[3] + 8 * l[4] + 4 * l[5] + 2 * l[6] + l[7]
  {
    LitBit(f, c, 0, y, 128);
    LitBit(f, c, 1, y, 64);
    LitBit(f, c, 2, y, 32);
    LitBit(f, c, 3, y, 16);
    LitBit(f, c, 4, y, 8);
    LitBit(f, c, 5, y, 4);
    LitBit(f, c, 6, y, 2);
    LitBit(f, c, 7, y, 1);
    BinaryForm(f[c][y / 2], LitRow(f, c, y));
  }

  /** Every bit of the font is a square of four pixels. */
  lemma BitIsSquare(f: font, cell: Cell, x: nat, y: nat, k: nat)
    requires x < 16 && y < 16 && k < 3
    ensures CellByte(f, cell, x, y, k) == CellByte(f, cell, 2 * (x / 2), 2 * (y / 2), k)
  {
  }

  /** Lit pixels have the colour, blue first; the others, and those of a blank cell, are black. */
  lemma PixelColor(f: font, c: byte, color: u32, x: nat, y: nat)
    requires c < 128 && x < 16 && y < 16
    ensures Lit(f, c, x, y) == 1 ==>
      && CellByte(f, Glyph(c, color), x, y, 0) == color % 0x100
      && CellByte(f, Glyph(c, color), x, y, 1) == color / 0x100 % 0x100
      && CellByte(f, Glyph(c, color), x, y, 2) == color / 0x1_0000 % 0x100
    ensures Lit(f, c, x, y) == 0 ==> forall k: nat :: k < 3 ==> CellByte(f, Glyph(c, color), x, y, k) == 0
    ensures forall k: nat :: k < 3 ==> CellByte(f, Blank, x, y, k) == 0
  {
  }

  /** Where the pixels of a cell are in the framebuffer: 16 x 16 pixels a cell, 2400 bytes a line, 3 bytes a pixel. */
  lemma CellInPicture(f: font, cells: grid, row: nat, col: nat, x: nat, y: nat, k: nat)
    requires row < 37 && col < 50 && x < 16 && y < 16 && k < 3
    ensures var i := 2400 * (16 * row + y) + 3 * (16 * col + x) + k;
      i < SIZE && RenderByte(f, cells, i) == CellByte(f, cells[50 * row + col], x, y, k)
  {
    var px, py := 16 * col + x, 16 * row + y;
    PixelPlace(px, py, k);
    SpanOf(px, col);
    SpanOf(py, row);
  }

  /** The eight lines below the last row are black. */
  lemma BelowIsBlack(f: font, cells: grid, i: nat)
    requires 1420800 <= i < 1440000
    ensures RenderByte(f, cells, i) == 0
  {
  }

  // ----- number conversions

  /** A message converts nothing exactly if it has no percent sign followed by a d. */
  lemma {:induction false} ConvertsNothing(message: seq<byte>)
    ensures Conversions(message) == 0
      <==> forall i :: 0 <= i < |message| - 1 ==> message[i] != 37 || message[i + 1] != 100
    decreases |message|
  {
    if message != [] {
      if !Converts(message) {
        ConvertsNothing(message[1..]);
        var rest := message[1..];
        assert forall i :: 0 <= i < |rest| ==> rest[i] == message[i + 1];
        if forall i :: 0 <= i < |rest| - 1 ==> rest[i] != 37 || rest[i + 1] != 100 {
          forall i | 0 <= i < |message| - 1
            ensures message[i] != 37 || message[i + 1] != 100
          {
            if i > 0 {
              assert rest[i - 1] != 37 || rest[i] != 100;
            }
          }
        }
      }
    }
  }

  lemma NothingFirst(message: seq<byte>)
    requires message != [] && Conversions(message) == 0
    ensures !Converts(message) && Conversions(message[1..]) == 0
  {
  }

  lemma RestOf(a: seq<byte>, b: seq<byte>)
    requires a != []
    ensures (a + b)[0] == a[0] && (a + b)[1..] == a[1..] + b
  {
  }

  /** Before a percent sign nothing that does not convert begins to. */
  lemma StillNothing(before: seq<byte>, rest: seq<byte>)
    requires before != [] && !Converts(before) && rest != [] && rest[0] == 37
    ensures !Converts(before + rest)
  {
    assert (before + rest)[1] == if |before| > 1 then before[1] else 37;
  }

  lemma ExpandedStep(message: seq<byte>, args: seq<i32>)
    requires message != [] && !Converts(message) && Conversions(message[1..]) <= |args|
    ensures Conversions(message) == Conversions(message[1..])
    ensures Expanded(message, args) == [message[0]] + Expanded(message[1..], args)
  {
  }

  lemma ExpandedNumber(message: seq<byte>, after: seq<byte>, n: i32, args: seq<i32>)
    requires message == [37, 100] + after && Conversions(after) <= |args|
    ensures Conversions(message) == 1 + Conversions(after)
    ensures Expanded(message, [n] + args) == Form(n) + Expanded(after, args)
  {
    assert message[2..] == after && ([n] + args)[1..] == args;
  }

  lemma FirstApart(a: seq<byte>, b: seq<byte>)
    requires a != []
    ensures [a[0]] + (a[1..] + b) == a + b
  {
  }

  /** The first conversion becomes the first number; what follows is treated in the same way. */
  lemma {:induction false} ConvertsFirst(before: seq<byte>, after: seq<byte>, n: i32, args: seq<i32>)
    requires Conversions(before) == 0 && Conversions(after) <= |args|
    ensures Conversions(before + ([37, 100] + after)) == 1 + Conversions(after)
    ensures Expanded(before + ([37, 100] + after), [n] + args) == before + (Form(n) + Expanded(after, args))
    decreases |before|
  {
    var number := [37, 100] + after;
    if before == [] {
      ExpandedNumber(number, after, n, args);
      assert before + number == number;
    } else {
      NothingFirst(before);
      RestOf(before, number);
      StillNothing(before, number);
      ConvertsFirst(before[1..], after, n, args);
      ExpandedStep(before + number, [n] + args);
      FirstApart(before, Form(n) + Expanded(after, args));
    }
  }
}
