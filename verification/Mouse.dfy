/** The mouse pointer: the pixels under it are saved, painted over and put back. */
module Mouse {
  import opened Bytes
  import opened Vga

  const SIDE := 16
  const PIXELS := 256

  /** The picture of the pointer: 0 transparent, 1 black outline, 2 filled. */
  type shape = s: seq<seq<int>> | |s| == SIDE && forall i :: 0 <= i < SIDE ==> |s[i]| == SIDE
    witness seq(SIDE, _ => seq(SIDE, _ => 0))

  type saved = s: seq<u32> | |s| == PIXELS witness seq(PIXELS, _ => 0)
  type frame = s: seq<byte> | |s| == SIZE witness seq(SIZE, _ => 0)

  // ----- the three steps on the bytes of a frame

  predicate Covered(n: nat, x: int, y: int) {
    InBox(n, x, y, SIDE, SIDE)
  }

  /** The place in the saved square of byte n of the frame. */
  function PlaceOf(n: nat, x: int, y: int): (p: nat)
    requires Covered(n, x, y)
    ensures p < PIXELS
  {
    (PixelY(n) - y) * SIDE + (PixelX(n) - x)
  }

  function Save(f: frame, x: int, y: int): saved {
    seq(PIXELS, p requires 0 <= p < PIXELS => PixelIn(f, x + p % SIDE, y + p / SIDE))
  }

  function Restore(f: frame, back: saved, x: int, y: int): frame {
    seq(SIZE, n requires 0 <= n < SIZE => if Covered(n, x, y) then ColorByte(back[PlaceOf(n, x, y)], n % 3) else f[n])
  }

  /** Byte n under the pointer at (x, y). */
  function PointerByte(f: frame, pointer: shape, fill: u32, x: int, y: int, n: nat): byte
    requires n < SIZE
  {
    if !Covered(n, x, y) then f[n]
    else
      var v := pointer[PixelY(n) - y][PixelX(n) - x];
      if v == 1 then 0 else if v == 2 then ColorByte(fill, n % 3) else f[n]
  }

  function Draw(f: frame, pointer: shape, fill: u32, x: int, y: int): frame {
    seq(SIZE, n requires 0 <= n < SIZE => PointerByte(f, pointer, fill, x, y, n))
  }

  lemma PlacesAgree(n: nat, x: int, y: int)
    requires Covered(n, x, y)
    ensures x + PlaceOf(n, x, y) % SIDE == PixelX(n) && y + PlaceOf(n, x, y) / SIDE == PixelY(n)
  {
  }

  /** Saving, drawing and restoring at one position leaves every byte as it was, wherever the square lies,
      partly or wholly off the screen too, for every shape and colour. */
  lemma RestoreUndoesDraw(f: frame, pointer: shape, fill: u32, x: int, y: int)
    ensures Restore(Draw(f, pointer, fill, x, y), Save(f, x, y), x, y) == f
  {
    var r := Restore(Draw(f, pointer, fill, x, y), Save(f, x, y), x, y);
    forall n: nat | n < SIZE
      ensures r[n] == f[n]
    {
      if Covered(n, x, y) {
        PlacesAgree(n, x, y);
        PixelBytes(f, n);
      }
    }
  }

  // ----- the same in numbers

  /** The pixel at (x, y) is on the screen. */
  predicate Visible(x: int, y: int) {
    0 <= x < 800 && 0 <= y < 600
  }

  /** The places of a pixel's three bytes, blue, green and red. */
  function BytePlace(x: int, y: int, k: nat): (n: nat)
    requires Visible(x, y) && k < 3
    ensures n < SIZE
  {
    2400 * y + 3 * x + k
  }

  /** In the picture, 1 is a black pixel, 2 one of the fill colour, and anything else leaves the pixel. */
  lemma PointerPixel(f: frame, pointer: shape, fill: u32, x: int, y: int, i: nat, j: nat)
    requires i < 16 && j < 16 && Visible(x + j, y + i)
    ensures var g := Draw(f, pointer, fill, x, y);
      var b, m, r := BytePlace(x + j, y + i, 0), BytePlace(x + j, y + i, 1), BytePlace(x + j, y + i, 2);
      if pointer[i][j] == 1 then g[b] == 0 && g[m] == 0 && g[r] == 0
      else if pointer[i][j] == 2 then
        g[b] == fill % 0x100 && g[m] == fill / 0x100 % 0x100 && g[r] == fill / 0x1_0000 % 0x100
      else g[b] == f[b] && g[m] == f[m] && g[r] == f[r]
  {
    PixelPlace(x + j, y + i, 0);
    PixelPlace(x + j, y + i, 1);
    PixelPlace(x + j, y + i, 2);
  }

  /** Pixels outside the square stay. */
  lemma PixelOutside(f: frame, pointer: shape, fill: u32, x: int, y: int, px: int, py: int, k: nat)
    requires Visible(px, py) && k < 3 && !(x <= px < x + 16 && y <= py < y + 16)
    ensures Draw(f, pointer, fill, x, y)[BytePlace(px, py, k)] == f[BytePlace(px, py, k)]
  {
    PixelPlace(px, py, k);
  }

  /** The buffer holds the colours row by row, black for pixels off the screen. */
  lemma SavedPixel(f: frame, x: int, y: int, i: nat, j: nat)
    requires i < 16 && j < 16
    ensures var color := Save(f, x, y)[16 * i + j];
      if Visible(x + j, y + i) then
        var b, g, r := BytePlace(x + j, y + i, 0), BytePlace(x + j, y + i, 1), BytePlace(x + j, y + i, 2);
        color == 0x1_0000 * f[r] as int + 0x100 * f[g] as int + f[b] as int
      else color == 0
  {
    assert (16 * i + j) / 16 == i && (16 * i + j) % 16 == j;
  }

  /** A coordinate moved back to the screen. */
  function Kept(x: int, most: nat): (r: int)
    ensures 0 <= r <= most && (0 <= x <= most ==> r == x) && (x < 0 ==> r == 0) && (x > most ==> r == most)
  {
    if x < 0 then 0 else if x > most then most else x
  }

  // ----- the code

  class Pointer {
    const screen: Framebuffer
    const picture: shape
    const backBuffer: array<u32>
    var mouseX: int
    var mouseY: int
    var prevMouseX: int
    var prevMouseY: int

    /** Before the first event nothing is saved: the square at (400, 300) counts as black. */
    constructor (screen: Framebuffer, picture: shape)
      requires screen.mem.Length == SIZE
      ensures Valid() && this.screen == screen && fresh(backBuffer)
      ensures Background() == Restore(screen.mem[..], seq(PIXELS, _ => 0), 400, 300)
    {
      this.screen, this.picture := screen, picture;
      backBuffer := new u32[PIXELS](_ => 0);
      mouseX, mouseY, prevMouseX, prevMouseY := 400, 300, 400, 300;
      new;
      assert backBuffer[..] == seq(PIXELS, _ => 0);
    }

    predicate Valid()
      reads this
    {
      screen.mem.Length == SIZE && backBuffer.Length == PIXELS
    }

    /** What the screen shows once the pointer is taken away. */
    function Background(): frame
      requires Valid()
      reads this, screen.mem, backBuffer
    {
      Restore(screen.mem[..], backBuffer[..], prevMouseX, prevMouseY)
    }

    method SaveBackground(x: int, y: int)
      requires Valid()
      modifies backBuffer
      ensures backBuffer[..] == Save(screen.mem[..], x, y)
    {
      ghost var goal := Save(screen.mem[..], x, y);
      for i := 0 to SIDE
        invariant forall p :: 0 <= p < i * SIDE ==> backBuffer[p] == goal[p]
      {
        for j := 0 to SIDE
          invariant forall p :: 0 <= p < i * SIDE + j ==> backBuffer[p] == goal[p]
        {
          backBuffer[i * SIDE + j] := screen.GetPixel(x + j, y + i);
          assert (i * SIDE + j) / SIDE == i && (i * SIDE + j) % SIDE == j;
        }
      }
    }

    method RestoreBackground(x: int, y: int)
      requires Valid()
      modifies screen.mem
      ensures screen.mem[..] == Restore(old(screen.mem[..]), backBuffer[..], x, y)
    {
      ghost var f, goal := screen.mem[..], Restore(screen.mem[..], backBuffer[..], x, y);
      for i := 0 to SIDE
        invariant forall n :: 0 <= n < SIZE ==> screen.mem[n] == if InBox(n, x, y, SIDE, i) then goal[n] else f[n]
      {
        for j := 0 to SIDE
          invariant forall n :: 0 <= n < SIZE ==>
            screen.mem[n] == if InBox(n, x, y, SIDE, i) || InBox(n, x, y + i, j, 1) then goal[n] else f[n]
        {
          screen.PutPixel(x + j, y + i, backBuffer[i * SIDE + j]);
        }
      }
    }

    method DrawMousePointer(x: int, y: int, fillColor: u32)
      requires Valid()
      modifies screen.mem
      ensures screen.mem[..] == Draw(old(screen.mem[..]), picture, fillColor, x, y)
    {
      ghost var f, goal := screen.mem[..], Draw(screen.mem[..], picture, fillColor, x, y);
      for i := 0 to SIDE
        invariant forall n :: 0 <= n < SIZE ==> screen.mem[n] == if InBox(n, x, y, SIDE, i) then goal[n] else f[n]
      {
        for j := 0 to SIDE
          invariant forall n :: 0 <= n < SIZE ==>
            screen.mem[n] == if InBox(n, x, y, SIDE, i) || InBox(n, x, y + i, j, 1) then goal[n] else f[n]
        {
          if picture[i][j] == 1 {
            screen.PutPixel(x + j, y + i, 0x00000000);
          } else if picture[i][j] == 2 {
            screen.PutPixel(x + j, y + i, fillColor);
          }
        }
      }
    }

    /** The drawing part of a mouse event with the given movement: every run of events leaves the background,
        and the pointer stays on the screen. */
    method Move(deltaX: int, deltaY: int, fillColor: u32)
      requires Valid()
      modifies this, screen.mem, backBuffer
      ensures Valid() && Background() == old(Background())
      ensures screen.mem[..] == Draw(Background(), picture, fillColor, prevMouseX, prevMouseY)
      ensures mouseX == Kept(old(mouseX) + deltaX, 784) && mouseY == Kept(old(mouseY) - deltaY, 584)
      ensures prevMouseX == mouseX && prevMouseY == mouseY
    {
      RestoreBackground(prevMouseX, prevMouseY);
      ghost var background := screen.mem[..];
      mouseX := mouseX + deltaX;
      mouseY := mouseY - deltaY;
      if mouseX < 0 { mouseX := 0; }
      if mouseX > 784 { mouseX := 784; }
      if mouseY < 0 { mouseY := 0; }
      if mouseY > 584 { mouseY := 584; }
      SaveBackground(mouseX, mouseY);
      DrawMousePointer(mouseX, mouseY, fillColor);
      RestoreUndoesDraw(background, picture, fillColor, mouseX, mouseY);
      prevMouseX := mouseX;
      prevMouseY := mouseY;
    }
  }

  /** So the first event leaves what was on the screen exactly if the square at (400, 300) was black. */
  lemma FirstEventBlanksSquare(f: frame)
    ensures Restore(f, seq(PIXELS, _ => 0), 400, 300) == f
      <==> forall n :: 0 <= n < SIZE && Covered(n, 400, 300) ==> f[n] == 0
  {
  }

  /** A white byte in that square: the first event blanks it. */
  lemma WhiteSquareExample(f: frame)
    requires f == seq(SIZE, i requires 0 <= i < SIZE => if i == 721200 then 255 else 0)
    ensures Covered(721200, 400, 300) && f[721200] == 255
    ensures Restore(f, seq(PIXELS, _ => 0), 400, 300)[721200] == 0
    ensures Restore(f, seq(PIXELS, _ => 0), 400, 300) != f
  {
  }
}
