/** The line editor and the terminal together: the line being edited stands on the screen before the cursor. */
module Typing {
  import opened Bytes
  import Keyboard
  import opened Screen

  /** The cells just before the cursor show w; a control character such as escape takes a blank cell. */
  predicate Displays(t: Text, w: seq<byte>)
    requires t.Valid()
  {
    && |w| <= t.Position()
    && forall i :: 0 <= i < |w| ==> ShowsAt(t, t.Position() - |w| + i, w[i])
  }

  predicate ShowsAt(t: Text, n: int, c: byte) {
    0 <= n < CELLS && if 32 <= c <= 127 then t.cells[n].Glyph? && t.cells[n].c == c else t.cells[n] == Blank
  }

  lemma DisplayTyped(t: Text, w: seq<byte>, c: byte)
    requires t.Valid() && Displays(t, w) && |w| < CELLS - COLS && c != LINE_FEED && c != BACKSPACE
    ensures Displays(PutChar(t, c), w + [c])
  {
  }

  lemma DisplayErased(t: Text, w: seq<byte>)
    requires t.Valid() && Displays(t, w) && w != []
    ensures Displays(PutChar(t, BACKSPACE), w[..|w| - 1])
  {
  }

  /** One character of echo acts on the displayed text as it does on the line. */
  lemma DisplayStep(t: Text, w: seq<byte>, c: byte)
    requires t.Valid() && Displays(t, w) && |w| < CELLS - COLS && c != LINE_FEED
    ensures Displays(PutChar(t, c), Keyboard.Shown(w, [c]))
  {
    if c != BACKSPACE {
      DisplayTyped(t, w, c);
    } else if w != [] {
      DisplayErased(t, w);
    }
  }

  lemma {:induction false} DisplayEcho(t: Text, w: seq<byte>, echo: seq<byte>)
    requires t.Valid() && Displays(t, w) && |w| + |echo| < CELLS - COLS && LINE_FEED !in echo
    ensures Displays(PutText(t, echo), Keyboard.Shown(w, echo))
    decreases |echo|
  {
    if echo != [] {
      DisplayStep(t, w, echo[0]);
      Keyboard.ShownConcat(w, [echo[0]], echo[1..]);
      assert [echo[0]] + echo[1..] == echo;
      DisplayEcho(PutChar(t, echo[0]), Keyboard.Shown(w, [echo[0]]), echo[1..]);
    }
  }

  /** A key that submits nothing echoes no line feed, and at most 510 characters. */
  lemma QuietEcho(cs: Keyboard.commands, e: Keyboard.Editor, scancode: byte)
    requires Keyboard.Sane(e) && !Keyboard.PressKey(cs, e, scancode).submits
    ensures LINE_FEED !in Keyboard.PressKey(cs, e, scancode).echo && |Keyboard.PressKey(cs, e, scancode).echo| <= 510
  {
  }

  /** Every run of keys from a prompt, wherever on the screen it stands, and over wrapping and scrolling: the
      line that Enter would submit is displayed just before the cursor. */
  lemma {:induction false} LineIsDisplayed(cs: Keyboard.commands, e: Keyboard.Editor, keys: seq<byte>, t: Text)
    requires Keyboard.Sane(e) && Keyboard.Quiet(cs, e, keys) && t.Valid() && Displays(t, e.line)
    ensures Displays(PutText(t, Keyboard.Echoed(cs, e, keys)), Keyboard.Edited(cs, e, keys).line)
    decreases |keys|
  {
    if keys != [] {
      var p := Keyboard.PressKey(cs, e, keys[0]);
      QuietEcho(cs, e, keys[0]);
      Keyboard.KeyKeepsSane(cs, e, keys[0]);
      Keyboard.EchoIsLine(cs, e, keys[0]);
      DisplayEcho(t, e.line, p.echo);
      LineIsDisplayed(cs, p.editor, keys[1..], PutText(t, p.echo));
      PutTextConcat(t, p.echo, Keyboard.Echoed(cs, p.editor, keys[1..]));
    }
  }

  /** Typing a character and erasing it is undone exactly; in the last cell of the screen it moves the text up by
      one row. */
  lemma EraseUndoesType(t: Text, c: byte)
    requires t.Valid() && c != LINE_FEED && c != BACKSPACE
    ensures PutChar(PutChar(t, c), BACKSPACE)
         == if t.Position() + 1 < CELLS then t else Text(MovedUp(t.cells), t.row - 1, t.col, t.color)
  {
    var r := PutChar(PutChar(t, c), BACKSPACE);
    if t.Position() + 1 < CELLS {
      assert r.cells == t.cells;
    } else {
      assert r.cells == MovedUp(t.cells);
    }
  }
}
