/** The text terminal: a 37 x 50 grid of cells, and the code that keeps the framebuffer its picture. */
module Screen {
  import opened Bytes
  import opened Vga
  import opened Numbers

  const COLS := 50
  const ROWS := 37
  const CELLS := 1850
  const CELL := 16
  const TEXT_HEIGHT := 592
  const ROW_BYTES := 38400

  /** For each ASCII character 8 rows of 8 bits, the leftmost pixel in the highest bit. */
  type font = f: seq<seq<byte>> | |f| == 128 && forall c :: 0 <= c < 128 ==> |f[c]| == 8
    witness seq(128, _ => [0, 0, 0, 0, 0, 0, 0, 0])

  datatype Cell = Blank | Glyph(c: byte, color: u32)

  type grid = g: seq<Cell> | |g| == CELLS witness seq(CELLS, _ => Blank)

  // ----- the grid as a value

  /** The text on the screen, read row by row, the cursor, and the colour of new characters. */
  datatype Text = Text(cells: grid, row: int, col: int, color: u32) {
    predicate OnGrid() {
      0 <= row < ROWS && 0 <= col < COLS
    }

    /** The cursor is on the grid, and no character stands at or after it. */
    predicate Valid() {
      OnGrid() && forall n :: Position() <= n < CELLS ==> cells[n] == Blank
    }

    function Position(): int {
      row * COLS + col
    }
  }

  predicate Printable(c: byte) {
    32 <= c <= 127
  }

  function BlankRow(): seq<Cell> {
    seq(COLS, _ => Blank)
  }

  function BlankGrid(): grid {
    seq(CELLS, _ => Blank)
  }

  function MovedUp(cells: grid): grid {
    cells[COLS..] + BlankRow()
  }

  /** Once the cursor is below the last row, every row moves up by one. */
  function Scrolled(t: Text): Text {
    if t.row >= ROWS then Text(MovedUp(t.cells), ROWS - 1, 0, t.color) else t
  }

  function Advanced(t: Text): Text {
    if t.col + 1 >= COLS then t.(row := t.row + 1, col := 0) else t.(col := t.col + 1)
  }

  function Retreated(t: Text): Text {
    if t.col > 0 then t.(col := t.col - 1) else if t.row > 0 then t.(row := t.row - 1, col := COLS - 1) else t
  }

  function WithCell(t: Text, cell: Cell): Text
    requires t.OnGrid()
  {
    t.(cells := t.cells[t.Position() := cell])
  }

  function PutChar(t: Text, c: byte): (r: Text)
    requires t.Valid()
    ensures r.Valid()
  {
    if c == LINE_FEED then Scrolled(t.(row := t.row + 1, col := 0))
    else if c == BACKSPACE then WithCell(Retreated(t), Blank)
    else Scrolled(Advanced(if Printable(c) then WithCell(t, Glyph(c, t.color)) else t))
  }

  function PutText(t: Text, s: seq<byte>): (r: Text)
    requires t.Valid()
    ensures r.Valid()
    decreases |s|
  {
    if s == [] then t else PutText(PutChar(t, s[0]), s[1..])
  }

  lemma {:induction false} PutTextConcat(t: Text, a: seq<byte>, b: seq<byte>)
    requires t.Valid()
    ensures PutText(t, a + b) == PutText(PutText(t, a), b)
    decreases |a|
  {
    if a == [] {
      assert a + b == b;
    } else {
      assert (a + b)[1..] == a[1..] + b;
      PutTextConcat(PutChar(t, a[0]), a[1..], b);
    }
  }

  // ----- what print makes of its arguments

  /** A number conversion, %d, at the start of a message. */
  predicate Converts(message: seq<byte>) {
    |message| >= 2 && message[0] == '%' as int && message[1] == 'd' as int
  }

  function Conversions(message: seq<byte>): nat {
    if message == [] then 0
    else if Converts(message) then 1 + Conversions(message[2..])
    else Conversions(message[1..])
  }

  /** The characters printed: each conversion becomes the decimal form of the next number. */
  function Expanded(message: seq<byte>, args: seq<i32>): seq<byte>
    requires Conversions(message) <= |args|
    decreases |message|
  {
    if message == [] then []
    else if Converts(message) then Form(args[0]) + Expanded(message[2..], args[1..])
    else [message[0]] + Expanded(message[1..], args)
  }

  /** A message without a conversion is printed as it is. */
  lemma {:induction false} ExpandedPlain(message: seq<byte>, args: seq<i32>)
    requires Conversions(message) == 0
    ensures Expanded(message, args) == message
    decreases |message|
  {
    if message != [] {
      ExpandedPlain(message[1..], args);
      assert message == [message[0]] + message[1..];
    }
  }

  // ----- the picture of a grid

  /** Bit 7 - k of a glyph row. */
  predicate Bit(b: byte, k: nat)
    requires k < 8
  {
    b / [128, 64, 32, 16, 8, 4, 2, 1][k] % 2 == 1
  }

  /** Channel k of the pixel at (x, y) of a cell; every bit of a glyph is 2 x 2 pixels. */
  function CellByte(f: font, cell: Cell, x: nat, y: nat, k: nat): byte
    requires x < CELL && y < CELL && k < 3
  {
    if cell.Glyph? && cell.c < 128 && Bit(f[cell.c][y / 2], x / 2) then ColorByte(cell.color, k) else 0
  }

  /** Byte i after painting a cell with its corner at (x, y): inside the painted part the cell shows. */
  function Painted(f: font, cell: Cell, x: int, y: int, i: nat, inside: bool, was: byte): byte
    requires inside ==> InBox(i, x, y, CELL, CELL)
  {
    if inside then CellByte(f, cell, PixelX(i) - x, PixelY(i) - y, i % 3) else was
  }

  /** Byte i of the picture: the cell it lies in, or black below the last row. */
  function RenderByte(f: font, cells: grid, i: nat): byte
    requires i < SIZE
  {
    if PixelY(i) >= TEXT_HEIGHT then 0
    else CellByte(f, cells[CellOf(i)], PixelX(i) % CELL, PixelY(i) % CELL, i % 3)
  }

  function CellOf(i: nat): (n: nat)
    requires i < SIZE && PixelY(i) < TEXT_HEIGHT
    ensures n < CELLS
  {
    PixelY(i) / CELL * COLS + PixelX(i) / CELL
  }

  ghost predicate Pictures(bytes: seq<byte>, f: font, cells: grid) {
    |bytes| == SIZE && forall i :: 0 <= i < SIZE ==> bytes[i] == RenderByte(f, cells, i)
  }

  lemma SpanOf(x: nat, n: nat)
    ensures n * CELL <= x < n * CELL + CELL <==> x / CELL == n
    ensures x / CELL == n ==> x - n * CELL == x % CELL
  {
  }

  lemma CellNumber(row: nat, col: nat, r: nat, c: nat)
    requires col < COLS && c < COLS
    ensures row * COLS + col == r * COLS + c <==> row == r && col == c
  {
  }

  /** A byte lies in the box of a cell exactly if that is its cell, and then at these coordinates. */
  lemma BoxIsCell(i: nat, row: nat, col: nat)
    requires i < SIZE && row < ROWS && col < COLS
    ensures InBox(i, col * CELL, row * CELL, CELL, CELL) <==> PixelY(i) < TEXT_HEIGHT && CellOf(i) == row * COLS + col
    ensures InBox(i, col * CELL, row * CELL, CELL, CELL) ==>
      PixelX(i) - col * CELL == PixelX(i) % CELL && PixelY(i) - row * CELL == PixelY(i) % CELL
  {
    OnScreen(i);
    SpanOf(PixelX(i), col);
    SpanOf(PixelY(i), row);
    CellNumber(PixelY(i) / CELL, PixelX(i) / CELL, row, col);
  }

  /** A byte one text row further down lies in the cell below, at the same coordinates. */
  lemma RowBelow(i: nat)
    requires i + ROW_BYTES < SIZE
    ensures PixelX(i + ROW_BYTES) == PixelX(i) && PixelY(i + ROW_BYTES) == PixelY(i) + CELL
    ensures (i + ROW_BYTES) % 3 == i % 3
  {
    PlaceOfByte(i);
    PixelPlace(PixelX(i), PixelY(i) + CELL, i % 3);
  }

  lemma CellBelow(i: nat)
    requires i + ROW_BYTES < SIZE && PixelY(i) + CELL < TEXT_HEIGHT
    ensures CellOf(i + ROW_BYTES) == CellOf(i) + COLS && CellOf(i) + COLS < CELLS
  {
    RowBelow(i);
    OnScreen(i);
  }

  /** Where the bytes of a scrolled picture come from. */
  lemma ScrollPlaces(i: nat)
    requires i < SIZE
    ensures i < SIZE - ROW_BYTES <==> PixelY(i) < HEIGHT - CELL
    ensures PixelY(i) < TEXT_HEIGHT ==> (CellOf(i) < CELLS - COLS <==> PixelY(i) + CELL < TEXT_HEIGHT)
  {
  }

  /** The bytes that scroll_screen leaves picture the grid moved up by one row. */
  lemma ScrolledByte(f: font, cells: grid, i: nat)
    requires i < SIZE
    ensures RenderByte(f, MovedUp(cells), i) == if i < SIZE - ROW_BYTES then RenderByte(f, cells, i + ROW_BYTES) else 0
  {
    ScrollPlaces(i);
    if i < SIZE - ROW_BYTES {
      RowBelow(i);
      if PixelY(i) + CELL < TEXT_HEIGHT {
        CellBelow(i);
      }
    }
    if PixelY(i) < TEXT_HEIGHT {
      var n := CellOf(i);
      assert MovedUp(cells)[n] == if n < CELLS - COLS then cells[n + COLS] else Blank;
    }
  }

  // ----- the terminal

  class Terminal {
    const screen: Framebuffer
    const glyphs: font
    var currentRow: int
    var currentCol: int
    var currentColor: u32
    ghost var cells: grid

    constructor (screen: Framebuffer, glyphs: font)
      requires screen.mem.Length == SIZE && forall i :: 0 <= i < SIZE ==> screen.mem[i] == 0
      ensures Valid() && this.screen == screen && View() == Text(BlankGrid(), 0, 0, 0x00FFFFFF)
    {
      this.screen, this.glyphs := screen, glyphs;
      currentRow, currentCol, currentColor := 0, 0, 0x00FFFFFF;
      cells := BlankGrid();
    }

    /** The framebuffer is the picture of the text. */
    ghost predicate Valid()
      reads this, screen.mem
    {
      View().Valid() && Pictures(screen.mem[..], glyphs, cells)
    }

    ghost function View(): Text
      reads this
    {
      Text(cells, currentRow, currentCol, currentColor)
    }

    method SetColor(color: u32)
      requires Valid()
      modifies this`currentColor
      ensures Valid() && View() == old(View()).(color := color)
    {
      currentColor := color;
    }

    method ClearScreen()
      requires screen.mem.Length == SIZE
      modifies this`currentRow, this`currentCol, this`cells, screen.mem
      ensures Valid() && View() == Text(BlankGrid(), 0, 0, currentColor)
    {
      for i := 0 to SIZE
        invariant forall o :: 0 <= o < i ==> screen.mem[o] == 0
      {
        screen.mem[i] := 0;
      }
      currentCol := 0;
      currentRow := 0;
      cells := BlankGrid();
    }

    /** The overlapping copy runs forward, so every byte is read before it is overwritten. */
    method ShiftUp()
      requires screen.mem.Length == SIZE
      modifies screen.mem
      ensures forall i :: 0 <= i < SIZE ==>
        screen.mem[i] == if i < SIZE - ROW_BYTES then old(screen.mem[i + ROW_BYTES]) else 0
    {
      ghost var before := screen.mem[..];
      var rowSizeBytes := ROW_BYTES;
      for i := 0 to SIZE - rowSizeBytes
        invariant forall o :: 0 <= o < i ==> screen.mem[o] == before[o + rowSizeBytes]
        invariant forall o :: i <= o < SIZE ==> screen.mem[o] == before[o]
      {
        screen.mem[i] := screen.mem[i + rowSizeBytes];
      }
      for i := SIZE - rowSizeBytes to SIZE
        invariant forall o :: 0 <= o < SIZE - rowSizeBytes ==> screen.mem[o] == before[o + rowSizeBytes]
        invariant forall o :: SIZE - rowSizeBytes <= o < i ==> screen.mem[o] == 0
      {
        screen.mem[i] := 0;
      }
    }

    method ScrollScreen()
      requires Pictures(screen.mem[..], glyphs, cells) && currentRow >= ROWS
      modifies this`currentRow, this`currentCol, this`cells, screen.mem
      ensures Valid() && View() == Scrolled(old(View()))
    {
      ghost var before := screen.mem[..];
      ShiftUp();
      currentRow := ROWS - 1;
      currentCol := 0;
      cells := MovedUp(cells);
      MovedPicture(before, screen.mem[..], glyphs, old(cells));
    }

    /** draw_char_graphic paints the 16 x 16 box at (x, y) with the glyph, or nothing for a control character. */
    method DrawCharGraphic(c: byte, x: int, y: int, color: u32)
      requires screen.mem.Length == SIZE
      modifies screen.mem
      ensures forall i :: 0 <= i < SIZE ==>
        screen.mem[i] == Painted(glyphs, Glyph(c, color), x, y, i, 32 <= c <= 127 && InBox(i, x, y, CELL, CELL),
                                 old(screen.mem[i]))
    {
      if SignedChar(c) < 32 || SignedChar(c) > 127 {
        return;
      }
      for cy := 0 to 8
        invariant forall i :: 0 <= i < SIZE ==>
          screen.mem[i] == Painted(glyphs, Glyph(c, color), x, y, i, InBox(i, x, y, CELL, 2 * cy), old(screen.mem[i]))
      {
        DrawGlyphRow(c, cy, x, y, color);
      }
    }

    method DrawGlyphRow(c: byte, cy: nat, x: int, y: int, color: u32)
      requires screen.mem.Length == SIZE && Printable(c) && cy < 8
      modifies screen.mem
      ensures forall i :: 0 <= i < SIZE ==>
        screen.mem[i] == Painted(glyphs, Glyph(c, color), x, y, i, InBox(i, x, y + 2 * cy, CELL, 2), old(screen.mem[i]))
    {
      for cx := 0 to 8
        invariant forall i :: 0 <= i < SIZE ==>
          screen.mem[i] == Painted(glyphs, Glyph(c, color), x, y, i, InBox(i, x, y + 2 * cy, 2 * cx, 2),
                                   old(screen.mem[i]))
      {
        if Bit(glyphs[c][cy], cx) {
          screen.DrawRectangle(x + 2 * cx, y + 2 * cy, 2, 2, color);
        } else {
          screen.DrawRectangle(x + 2 * cx, y + 2 * cy, 2, 2, 0);
        }
      }
    }

    method BackspaceOnScreen()
      requires Valid()
      modifies this`currentRow, this`currentCol, this`cells, screen.mem
      ensures Valid() && View() == WithCell(Retreated(old(View())), Blank)
    {
      if currentCol > 0 {
        currentCol := currentCol - 1;
      } else if currentRow > 0 {
        currentRow := currentRow - 1;
        currentCol := COLS - 1;
      }
      ghost var before := screen.mem[..];
      screen.DrawRectangle(currentCol * CELL, currentRow * CELL, CELL, CELL, 0);
      PaintedPicture(before, screen.mem[..], glyphs, cells, currentRow, currentCol, Blank);
      cells := cells[currentRow * COLS + currentCol := Blank];
    }

    /** print_char, without the kernel log. */
    method PrintChar(c: byte)
      requires Valid()
      modifies this`currentRow, this`currentCol, this`cells, screen.mem
      ensures Valid() && View() == PutChar(old(View()), c)
    {
      if c == LINE_FEED {
        currentRow := currentRow + 1;
        currentCol := 0;
      } else if c == BACKSPACE {
        BackspaceOnScreen();
      } else {
        DrawAtCursor(c);
        currentCol := currentCol + 1;
        if currentCol >= COLS {
          currentCol := 0;
          currentRow := currentRow + 1;
        }
      }
      if currentRow >= ROWS {
        ScrollScreen();
      }
    }

    method DrawAtCursor(c: byte)
      requires Valid()
      modifies this`cells, screen.mem
      ensures Pictures(screen.mem[..], glyphs, cells)
      ensures View() == if Printable(c) then WithCell(old(View()), Glyph(c, currentColor)) else old(View())
    {
      ghost var before := screen.mem[..];
      DrawCharGraphic(c, currentCol * CELL, currentRow * CELL, currentColor);
      if Printable(c) {
        PaintedPicture(before, screen.mem[..], glyphs, cells, currentRow, currentCol, Glyph(c, currentColor));
        cells := cells[currentRow * COLS + currentCol := Glyph(c, currentColor)];
      } else {
        assert screen.mem[..] == before;
      }
    }

    /** The digits of a number, from a buffer of 32 characters. */
    method PrintNumber(num: i32)
      requires Valid() && num > -0x8000_0000
      modifies this`currentRow, this`currentCol, this`cells, screen.mem
      ensures Valid() && View() == PutText(old(View()), Form(num))
    {
      ghost var text := Form(num);
      FormFits(num);
      CStringChars(text);
      var digits := new byte[32];
      Itoa(num, digits);
      var j := 0;
      assert text[0..] == text;
      while digits[j] != 0
        invariant j <= |text| && Valid()
        invariant digits[|text|] == 0 && forall k :: 0 <= k < |text| ==> digits[k] == text[k]
        invariant PutText(View(), text[j..]) == PutText(old(View()), text)
        decreases |text| - j
      {
        assert text[j..][1..] == text[j + 1..];
        PrintChar(digits[j]);
        j := j + 1;
      }
    }

    /** print; the caller passes a number for every conversion. */
    method Print(message: seq<byte>, args: seq<i32>)
      requires Valid() && Conversions(message) <= |args| && forall k :: 0 <= k < |args| ==> args[k] > -0x8000_0000
      modifies this`currentRow, this`currentCol, this`cells, screen.mem
      ensures Valid() && View() == PutText(old(View()), Expanded(message, args))
    {
      var i, n := 0, 0;
      while i < |message|
        invariant i <= |message| && n <= |args| && Conversions(message[i..]) <= |args| - n && Valid()
        invariant PutText(View(), Expanded(message[i..], args[n..])) == PutText(old(View()), Expanded(message, args))
      {
        if message[i] == '%' as int && i + 1 < |message| && message[i + 1] == 'd' as int {
          PutTextConcat(View(), Form(args[n]), Expanded(message[i + 2..], args[n + 1..]));
          assert message[i..][2..] == message[i + 2..] && args[n..][1..] == args[n + 1..];
          PrintNumber(args[n]);
          i, n := i + 2, n + 1;
        } else {
          assert message[i..][1..] == message[i + 1..];
          PrintChar(message[i]);
          i := i + 1;
        }
      }
    }
  }

  /** Painting the box of a cell is a change of that cell. */
  lemma PaintedPicture(before: seq<byte>, after: seq<byte>, f: font, cells: grid, row: nat, col: nat, cell: Cell)
    requires row < ROWS && col < COLS && Pictures(before, f, cells) && |after| == SIZE
    requires forall i :: 0 <= i < SIZE ==>
      after[i] == Painted(f, cell, col * CELL, row * CELL, i, InBox(i, col * CELL, row * CELL, CELL, CELL), before[i])
    ensures Pictures(after, f, cells[row * COLS + col := cell])
  {
    forall i: nat | i < SIZE
      ensures after[i] == RenderByte(f, cells[row * COLS + col := cell], i)
    {
      BoxIsCell(i, row, col);
    }
  }

  lemma MovedPicture(before: seq<byte>, after: seq<byte>, f: font, cells: grid)
    requires Pictures(before, f, cells) && |after| == SIZE
    requires forall i :: 0 <= i < SIZE ==> after[i] == if i < SIZE - ROW_BYTES then before[i + ROW_BYTES] else 0
    ensures Pictures(after, f, MovedUp(cells))
  {
    forall i: nat | i < SIZE
      ensures after[i] == RenderByte(f, MovedUp(cells), i)
    {
      ScrolledByte(f, cells, i);
    }
  }
}
