/** The machine and the terminal together: what cat prints stands on the screen. */
module Showing {
  import opened Bytes
  import opened Screen
  import opened Typing
  import opened Machine
  import opened Commands
  import Keyboard
  import Shell
  import opened Strings
  import V = Volume
  import S = Simulation
  import Q = Consequences

  // ----- text that stands on the screen

  /** The cells from place p on show w, and the cursor is behind them. */
  predicate StandsAt(t: Text, w: seq<byte>, p: int) {
    0 <= p && p + |w| <= t.Position() && forall i :: 0 <= i < |w| ==> ShowsAt(t, p + i, w[i])
  }

  /** One more character leaves the text where it stands, or one row higher. */
  lemma StandsStep(t: Text, w: seq<byte>, p: int, c: byte) returns (q: int)
    requires t.Valid() && StandsAt(t, w, p) && c != BACKSPACE && t.Position() - p <= 1000
    ensures StandsAt(PutChar(t, c), w, q) && PutChar(t, c).Position() - q <= t.Position() - p + COLS
  {
    var r := PutChar(t, c);
    var scrolls := if c == LINE_FEED then t.row + 1 >= ROWS else t.Position() + 1 >= CELLS;
    q := if scrolls then p - COLS else p;
    forall i | 0 <= i < |w|
      ensures ShowsAt(r, q + i, w[i])
    {
      assert ShowsAt(t, p + i, w[i]);
    }
  }

  lemma {:induction false} StandsText(t: Text, w: seq<byte>, p: int, s: seq<byte>) returns (q: int)
    requires t.Valid() && StandsAt(t, w, p) && BACKSPACE !in s && t.Position() - p + |s| * COLS <= 1000
    ensures StandsAt(PutText(t, s), w, q)
    decreases |s|
  {
    if s == [] {
      q := p;
    } else {
      q := StandsStep(t, w, p, s[0]);
      q := StandsText(PutChar(t, s[0]), w, q, s[1..]);
    }
  }

  // ----- messages

  /** None of the messages has a number conversion, so print takes no further argument. */
  predicate AllPlain(ms: seq<message>) {
    forall i :: 0 <= i < |ms| ==> Conversions(ms[i]) == 0
  }

  /** The terminal after print was called with these messages, one by one. */
  function AfterPrints(t: Text, ms: seq<message>): (r: Text)
    requires t.Valid() && AllPlain(ms)
    ensures r.Valid()
    decreases |ms|
  {
    if ms == [] then t else AfterPrints(PutText(t, Expanded(ms[0], [])), ms[1..])
  }

  /** Printing messages one by one is printing all their characters. */
  lemma {:induction false} PrintsAll(t: Text, ms: seq<message>)
    requires t.Valid() && AllPlain(ms)
    ensures AfterPrints(t, ms) == PutText(t, Flat(ms))
    decreases |ms|
  {
    if ms != [] {
      ExpandedPlain(ms[0], []);
      PrintsAll(PutText(t, ms[0]), ms[1..]);
      PutTextConcat(t, ms[0], Flat(ms[1..]));
    }
  }

  // ----- what the screen shows after cat

  /** What Enter hands to print, the prompt included, when cat shows the content. */
  function Output(content: seq<byte>): seq<message> {
    [[10], [10], content, [10, 10], [79, 83, 62, 32]]
  }

  lemma PromptText()
    ensures Keyboard.Prompt() == [79, 83, 62, 32]
  {
  }

  /** These are the messages of the interrupt handler, in order. */
  lemma EnterPrints(cs: Keyboard.commands, m: Machine, content: seq<byte>)
    requires Good(m) && Shell.IsModelled(m.editor.line) && IsCString(m.editor.line)
    requires Printed(cs, m) == Shows(content)
    ensures KeyIsModelled(cs, m, ENTER_KEY) && Key(cs, m, ENTER_KEY).1 == Output(content)
  {
    EnterSubmits(cs, m.editor);
    PromptText();
    assert Chars([LINE_FEED]) == [[LINE_FEED]];
    assert Chars([LINE_FEED]) + Shows(content) + [Keyboard.Prompt()] == Output(content);
  }

  lemma ConstantsConvertNothing()
    ensures Conversions([LINE_FEED]) == 0 && Conversions(V.TWO_NEWLINES) == 0 && Conversions(Keyboard.Prompt()) == 0
    ensures |Keyboard.Prompt()| == 4 && BACKSPACE !in Keyboard.Prompt()
  {
    PromptText();
    assert Conversions([62, 32]) == Conversions([32]);
  }

  lemma FlatOutput(content: seq<byte>, prompt: seq<byte>)
    requires prompt == Keyboard.Prompt()
    ensures Flat(Output(content)) == [LINE_FEED] + V.NEWLINE + (content + (V.TWO_NEWLINES + prompt))
  {
    var a, b := [LINE_FEED], V.TWO_NEWLINES;
    PromptText();
    FlatStep(a, [a, content, b, prompt]);
    FlatStep(a, [content, b, prompt]);
    FlatStep(content, [b, prompt]);
    FlatStep(b, [prompt]);
    FlatStep(prompt, []);
    assert Output(content) == [a] + [a, content, b, prompt];
    assert [a, content, b, prompt] == [a] + [content, b, prompt];
    assert [content, b, prompt] == [content] + [b, prompt];
    assert [b, prompt] == [b] + [prompt] && [prompt] == [prompt] + [];
    assert a + (a + (content + (b + (prompt + [])))) == a + a + (content + (b + prompt));
  }

  /** A text that is printed stands on the screen after a little more was printed. */
  lemma PrintedStands(t: Text, before: seq<byte>, content: seq<byte>, after: seq<byte>) returns (p: int)
    requires t.Valid() && Keyboard.Typeable(content) && |content| <= 255
    requires BACKSPACE !in after && |after| <= 10
    ensures StandsAt(PutText(t, before + (content + after)), content, p)
  {
    var t1 := PutText(t, before);
    var t2 := PutText(t1, content);
    Keyboard.ShownText([], content);
    DisplayEcho(t1, [], content);
    assert [] + content == content;
    p := StandsText(t2, content, t2.Position() - |content|, after);
    PutTextConcat(t, before, content + after);
    PutTextConcat(t1, content, after);
  }

  /** After the output of a cat line, the content stands on the screen, whatever was there before. */
  lemma OutputStands(t: Text, content: seq<byte>) returns (p: int)
    requires t.Valid() && Keyboard.Typeable(content) && |content| <= 255 && Conversions(content) == 0
    ensures AllPlain(Output(content)) && StandsAt(AfterPrints(t, Output(content)), content, p)
  {
    ConstantsConvertNothing();
    FlatOutput(content, Keyboard.Prompt());
    PrintsAll(t, Output(content));
    p := PrintedStands(t, [LINE_FEED] + V.NEWLINE, content, V.TWO_NEWLINES + Keyboard.Prompt());
  }

  /** Enter on a line for which cat shows the content leaves it on the screen: the messages that the handler hands to
      print, one by one, draw it. */
  lemma EnterShows(cs: Keyboard.commands, m: Machine, content: seq<byte>, t: Text) returns (p: int)
    requires Good(m) && Shell.IsModelled(m.editor.line) && IsCString(m.editor.line)
    requires Printed(cs, m) == Shows(content)
    requires t.Valid() && Keyboard.Typeable(content) && |content| <= 255 && Conversions(content) == 0
    ensures KeyIsModelled(cs, m, ENTER_KEY) && AllPlain(Key(cs, m, ENTER_KEY).1)
    ensures StandsAt(AfterPrints(t, Key(cs, m, ENTER_KEY).1), content, p)
  {
    EnterPrints(cs, m, content);
    p := OutputStands(t, content);
  }

  // ----- end to end

  lemma ContentIsTypeable(line: seq<byte>, name: seq<byte>, ext: seq<byte>, content: seq<byte>)
    requires IsWriteLine(line, name, ext, content)
    ensures Keyboard.Typeable(content) && |content| <= 255
  {
    var n := |line| - |content|;
    forall i | 0 <= i < |content|
      ensures content[i] == line[n + i]
    {
    }
  }

  /** On any good machine and any screen: after the line `write N E C` was entered and the file stored, with no earlier
      slot of its name, and after any keys, that enter any lines of modelled commands whose calls leave the file alone,
      and leave `cat N` on the line, Enter leaves C on the screen. */
  lemma WrittenTextIsShown(cs: Keyboard.commands, m: Machine, a: S.FileSystem, name: seq<byte>, ext: seq<byte>,
                           content: seq<byte>, keys: seq<byte>, args: seq<byte>, t: Text) returns (p: int)
    requires Good(m) && IsWriteLine(m.editor.line, name, ext, content) && Shell.IsModelled(m.editor.line)
    requires KeysAreModelled(cs, Entered(cs, m), keys)
    requires forall c :: c in CallsOf(cs, Entered(cs, m), keys) ==> V.Proper(c)
    requires LaterCat(cs, m, a, name, ext, content, keys, args)
    requires t.Valid() && Conversions(content) == 0
    ensures KeyIsModelled(cs, Keys(cs, Entered(cs, m), keys), ENTER_KEY)
    ensures AllPlain(Key(cs, Keys(cs, Entered(cs, m), keys), ENTER_KEY).1)
    ensures StandsAt(AfterPrints(t, Key(cs, Keys(cs, Entered(cs, m), keys), ENTER_KEY).1), content, p)
  {
    ReadBackLater(cs, m, a, name, ext, content, keys, args);
    ContentIsTypeable(m.editor.line, name, ext, content);
    p := EnterShows(cs, Keys(cs, Entered(cs, m), keys), content, t);
  }

  /** The same for keys that spell the two lines, on any good machine with an empty line. */
  lemma TypedTextIsShown(cs: Keyboard.commands, m: Machine, name: seq<byte>, ext: seq<byte>, content: seq<byte>,
                         write: seq<byte>, cat: seq<byte>, args: seq<byte>, t: Text) returns (p: int)
    requires Good(m) && m.editor.line == [] && TypesLines(cs, m, name, ext, content, write, cat, args)
    requires IsStored(m.volume, WriteCall(name, ext, content)) && args != []
    requires Pad(Head(args, Shell.BLANK), 8) == Pad(name, 8) && Q.NoneBefore(m.volume, Head(args, Shell.BLANK))
    requires t.Valid() && Conversions(content) == 0
    ensures KeysAreModelled(cs, m, write + ([ENTER_KEY] + cat))
    ensures KeyIsModelled(cs, Keys(cs, m, write + ([ENTER_KEY] + cat)), ENTER_KEY)
    ensures AllPlain(Key(cs, Keys(cs, m, write + ([ENTER_KEY] + cat)), ENTER_KEY).1)
    ensures StandsAt(AfterPrints(t, Key(cs, Keys(cs, m, write + ([ENTER_KEY] + cat)), ENTER_KEY).1), content, p)
  {
    TypedWriteIsReadBack(cs, m, name, ext, content, write, cat, args);
    NewNameReadsBack(m.volume, name, content, args, Printed(cs, Keys(cs, m, write + ([ENTER_KEY] + cat))));
    ContentIsTypeable(WriteLine(name, ext, content), name, ext, content);
    p := EnterShows(cs, Keys(cs, m, write + ([ENTER_KEY] + cat)), content, t);
  }

  /** From the first key on: on a machine with an empty line, whose disk has a zero FAT and root, and with any text on
      the screen, pressing keys that spell `write N E C`, Enter, keys that spell `cat N`, and Enter leaves C on the
      screen. */
  lemma WhatIsTypedIsShown(cs: Keyboard.commands, m: Machine, name: seq<byte>, ext: seq<byte>, content: seq<byte>,
                           write: seq<byte>, cat: seq<byte>, args: seq<byte>, t: Text) returns (p: int)
    requires TypesFirstFile(cs, m, name, ext, content, write, cat, args)
    requires t.Valid() && Conversions(content) == 0
    ensures Good(m) && KeysAreModelled(cs, m, write + ([ENTER_KEY] + cat))
    ensures KeyIsModelled(cs, Keys(cs, m, write + ([ENTER_KEY] + cat)), ENTER_KEY)
    ensures AllPlain(Key(cs, Keys(cs, m, write + ([ENTER_KEY] + cat)), ENTER_KEY).1)
    ensures StandsAt(AfterPrints(t, Key(cs, Keys(cs, m, write + ([ENTER_KEY] + cat)), ENTER_KEY).1), content, p)
  {
    FirstFileIsReadBack(cs, m, name, ext, content, write, cat, args);
    ContentIsTypeable(WriteLine(name, ext, content), name, ext, content);
    p := EnterShows(cs, Keys(cs, m, write + ([ENTER_KEY] + cat)), content, t);
  }
}
