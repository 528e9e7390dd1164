/** The keyboard, the interpreter and the disk together: what is typed is what is read back. */
module Machine {
  import opened Bytes
  import opened Strings
  import opened Keyboard
  import opened Commands
  import V = Volume
  import S = Simulation
  import Q = Consequences
  import K = Leaks
  import W = Lasting
  import Shell
  import C = Chains
  import L = Layout

  datatype Machine = Machine(editor: Editor, volume: V.Volume)

  ghost predicate Good(m: Machine) {
    Sane(m.editor) && S.Safe(m.volume)
  }

  /** A key that submits a line does so for a command that is modelled. */
  ghost predicate KeyIsModelled(cs: commands, m: Machine, scancode: byte) {
    PressKey(cs, m.editor, scancode).submits ==> Shell.IsModelled(m.editor.line)
  }

  /** One key: the machine after it, and everything it prints. */
  ghost function Key(cs: commands, m: Machine, scancode: byte): (r: (Machine, seq<message>))
    requires Good(m) && KeyIsModelled(cs, m, scancode)
    ensures Good(r.0)
  {
    KeyKeepsSane(cs, m.editor, scancode);
    Pressed(m, PressKey(cs, m.editor, scancode))
  }

  ghost function Pressed(m: Machine, p: Press): (r: (Machine, seq<message>))
    requires Good(m) && Sane(p.editor) && (p.submits ==> Shell.IsModelled(m.editor.line))
    ensures Good(r.0)
  {
    if p.submits then
      var r := Shell.RunLine(m.volume, m.editor.line);
      (Machine(p.editor, r.0), Chars(p.echo) + r.1 + [Prompt()])
    else (Machine(p.editor, m.volume), Chars(p.echo))
  }

  lemma PressIsEffect(m: Machine, p: Press, out: seq<message>, w: V.Volume, out': seq<message>)
    requires Good(m) && Sane(p.editor) && KeyEffect(m.volume, out, m.editor.line, p, w, out')
    requires p.submits ==> Shell.IsModelled(m.editor.line)
    ensures Pressed(m, p) == (Machine(p.editor, w), Pressed(m, p).1) && out' == out + Pressed(m, p).1
  {
    if p.submits {
      MessagesAssociateTwice(out, Chars(p.echo), Shell.RunLine(m.volume, m.editor.line).1, [Prompt()]);
    }
  }

  /** What the keyboard interrupt leaves in memory, on the disk and in the output is one step of this machine. */
  lemma KeyIsEffect(cs: commands, m: Machine, scancode: byte, out: seq<message>, w: V.Volume, out': seq<message>)
    requires Good(m) && KeyEffect(m.volume, out, m.editor.line, PressKey(cs, m.editor, scancode), w, out')
    requires KeyIsModelled(cs, m, scancode)
    ensures Key(cs, m, scancode).0 == Machine(PressKey(cs, m.editor, scancode).editor, w)
    ensures out' == out + Key(cs, m, scancode).1
  {
    KeyKeepsSane(cs, m.editor, scancode);
    PressIsEffect(m, PressKey(cs, m.editor, scancode), out, w, out');
  }

  ghost predicate KeysAreModelled(cs: commands, m: Machine, keys: seq<byte>)
    requires Good(m)
    decreases |keys|
  {
    keys == [] || (KeyIsModelled(cs, m, keys[0]) && KeysAreModelled(cs, Key(cs, m, keys[0]).0, keys[1..]))
  }

  /** The machine after a run of keys. */
  ghost function Keys(cs: commands, m: Machine, keys: seq<byte>): (r: Machine)
    requires Good(m) && KeysAreModelled(cs, m, keys)
    ensures Good(r)
    decreases |keys|
  {
    if keys == [] then m else Keys(cs, Key(cs, m, keys[0]).0, keys[1..])
  }

  /** Keys that submit nothing edit the line and leave the disk and the current directory alone. */
  lemma {:induction false} QuietKeys(cs: commands, m: Machine, keys: seq<byte>)
    requires Good(m) && Quiet(cs, m.editor, keys)
    ensures KeysAreModelled(cs, m, keys)
    ensures Keys(cs, m, keys) == Machine(Edited(cs, m.editor, keys), m.volume)
    decreases |keys|
  {
    if keys != [] {
      QuietKeys(cs, Key(cs, m, keys[0]).0, keys[1..]);
    }
  }

  // ----- what can be typed

  predicate AllAscii(s: seq<byte>) {
    forall i :: 0 <= i < |s| ==> s[i] < 0x80
  }

  lemma PartsAreAscii(s: seq<byte>, n: nat)
    requires AllAscii(s)
    ensures AllAscii(Head(s, Shell.BLANK)) && AllAscii(Tail(s, Shell.BLANK)) && Q.IsAscii(Pad(s, n))
  {
  }

  /** The 8 characters that a call searches for or stores. */
  function NameOf(c: V.Command): seq<byte> {
    if c.Write? && |c.name| >= 8 then c.name[..8] else Pad(c.name, 8)
  }

  /** The name is ASCII, and no content is cut off. */
  predicate Fits(c: V.Command) {
    Q.IsAscii(NameOf(c)) && (c.Write? ==> S.Kept(c.content) == c.content)
  }

  lemma InterpretFits(index: nat, args: seq<byte>)
    requires AllAscii(args) && |args| <= 255
    ensures var action := Shell.Interpret(index, args); action.Call? || action.Install? ==> Fits(action.call)
  {
    var afterName := Tail(args, Shell.BLANK);
    PartsAreAscii(args, 8);
    PartsAreAscii(afterName, 8);
    PartsAreAscii(Head(args, Shell.BLANK), 8);
    PadOfPrefix(Head(args, Shell.BLANK), Head(afterName, Shell.BLANK));
    AppFits();
  }

  lemma AppFits()
    ensures Fits(Shell.AppCall())
  {
    assert Shell.AppCall().name == Shell.AppName();
    forall i | 0 <= i < 11
      ensures Shell.AppName()[i] < 0x80
    {
      assert "APP     BIN"[i] as int % 0x100 < 0x80;
    }
  }

  /** No line that can be typed makes a call with a name that is not ASCII or a content that is cut off. */
  lemma TypedCallsFit(line: seq<byte>)
    requires Typeable(line) && |line| <= 255
    ensures var action := Shell.Parse(line); action.Call? || action.Install? ==> Fits(action.call)
  {
    PartsAreAscii(line, 8);
    InterpretFits(Shell.Lookup(Head(line, Shell.BLANK), 0), Tail(line, Shell.BLANK));
  }

  /** So the only typed lines that lose a cluster are those that remove a directory with an entry. */
  lemma TypedLosesOnlyByRemoval(v: V.Volume, line: seq<byte>)
    requires S.Safe(v) && Typeable(line) && |line| <= 255 && IsCString(line)
    ensures var action := Shell.Parse(line);
      (action.Call? || action.Install?) && V.Proper(action.call) && K.Loses(v, action.call) ==> action.call.Rm?
  {
    TypedCallsFit(line);
    var action := Shell.Parse(line);
    if (action.Call? || action.Install?) && V.Proper(action.call) && (action.call.Write? || action.call.Mkdir?) {
      assert Q.NodeOf(action.call).name == NameOf(action.call);
      assert Q.NodeOf(action.call).name[0] in NameOf(action.call);
    }
  }

  // ----- type write, type cat, see the same text

  const ENTER_KEY: byte := 28

  lemma EnterSubmits(cs: commands, e: Editor)
    ensures PressKey(cs, e, ENTER_KEY)
         == Press(e.(line := [], last := if e.line == [] then e.last else e.line), [LINE_FEED], true)
  {
  }

  lemma PadOfPrefix(name: seq<byte>, ext: seq<byte>)
    ensures Shell.FatName(name, ext)[..8] == Pad(name, 8)
  {
  }

  function WriteCall(name: seq<byte>, ext: seq<byte>, content: seq<byte>): V.Command {
    V.Write(Shell.FatName(name, ext), content)
  }

  /** The line is that of a write with these arguments. */
  predicate IsWriteLine(line: seq<byte>, name: seq<byte>, ext: seq<byte>, content: seq<byte>) {
    && line == WriteLine(name, ext, content) && Typeable(line) && |line| <= 255
    && Shell.BLANK !in name && Shell.BLANK !in ext && content != []
  }

  /** The volume after the write line, on which the content was short enough and the name ASCII. */
  lemma WriteLineRuns(v: V.Volume, line: seq<byte>, name: seq<byte>, ext: seq<byte>, content: seq<byte>)
    requires S.Safe(v) && IsWriteLine(line, name, ext, content)
    ensures IsCString(line) && Shell.IsModelled(line) && V.Proper(WriteCall(name, ext, content))
    ensures Shell.RunLine(v, line).0 == V.Next(v, WriteCall(name, ext, content))
    ensures Q.IsAscii(Pad(name, 8)) && S.Kept(content) == content && |content| <= 255
  {
    TypeableIsCString(line);
    ParseWrite(name, ext, content);
    Shell.ParseIsProper(line);
    TypedCallsFit(line);
    PadOfPrefix(name, ext);
  }

  /** What a cat line prints. */
  lemma CatLineRuns(v: V.Volume, args: seq<byte>)
    requires S.Safe(v) && Typeable(CatLine(args))
    ensures IsCString(CatLine(args)) && Shell.IsModelled(CatLine(args))
    ensures args == [] ==> Shell.RunLine(v, CatLine(args)).1 == [Shell.Usage(Shell.CAT)]
    ensures args != [] ==>
      var call := V.Cat(Head(args, Shell.BLANK));
      V.Proper(call) && V.CatEnds(v, call.name)
      && Shell.RunLine(v, CatLine(args)).1 == V.Messages(call, V.CatFile(v, call.name))
  {
    TypeableIsCString(CatLine(args));
    ParseCat(args);
    Shell.ParseIsProper(CatLine(args));
    if args != [] {
      S.SafeCatEnds(v, V.Cat(Head(args, Shell.BLANK)));
    }
  }

  /** What is handed to print for a file of one cluster. */
  function Shows(content: seq<byte>): seq<message> {
    [[10], content, [10, 10]]
  }

  lemma ShownOnce(name: seq<byte>, content: seq<byte>)
    ensures V.Messages(V.Cat(name), V.Shown([content])) == Shows(content)
  {
  }

  /** No answer of cat looks like its usage error. */
  lemma UsageDiffers(name: seq<byte>, r: V.Reply)
    ensures V.Messages(V.Cat(name), r) != [Shell.Usage(Shell.CAT)]
  {
    var usage, missing := "Error: missing args\n- use: cat [filename]\n", "Error: File not found.\n";
    if r.Shown? {
      assert |V.Messages(V.Cat(name), r)| >= 2;
    } else {
      assert usage[7] == 'm' && Shell.Usage(Shell.CAT) == Ascii(usage) && Ascii(usage)[7] == 'm' as int;
      assert missing[7] == 'F' && Ascii(missing)[7] == 'F' as int;
      assert V.Messages(V.Cat(name), r) == [Ascii(missing)];
      assert [Ascii(missing)][0] != [Shell.Usage(Shell.CAT)][0];
    }
  }

  /** What the line `cat` with any argument text prints after a write was stored on v: the usage error exactly if
      the text is empty; the content if its first word is padded to the same 8 characters as the name and no earlier
      slot has them; and otherwise what it printed before. */
  ghost predicate ReadsBack(v: V.Volume, name: seq<byte>, content: seq<byte>, args: seq<byte>, printed: seq<message>)
    requires S.Safe(v) && IsCString(CatLine(args)) && Shell.IsModelled(CatLine(args))
  {
    && (printed == [Shell.Usage(Shell.CAT)] <==> args == [])
    && (args != [] ==>
      var target := Head(args, Shell.BLANK);
      printed == if Pad(target, 8) == Pad(name, 8) && Q.NoneBefore(v, target) then Shows(content)
                 else Shell.RunLine(v, CatLine(args)).1)
  }

  /** A cat line with an argument, after the write. */
  lemma CatPrintsAfterWrite(v: V.Volume, c: V.Command, name: seq<byte>, args: seq<byte>)
    requires S.Safe(v) && c.Write? && V.Proper(c) && V.ReplyTo(v, c) == V.Stored && S.Kept(c.content) == c.content
    requires c.name[..8] == Pad(name, 8) && Q.IsAscii(Pad(name, 8)) && Typeable(CatLine(args))
    ensures S.Safe(V.Next(v, c)) && IsCString(CatLine(args)) && Shell.IsModelled(CatLine(args))
    ensures ReadsBack(v, name, c.content, args, Shell.RunLine(V.Next(v, c), CatLine(args)).1)
  {
    var a := S.SafeRepresents(v);
    S.StepKeepsSafe(v, c);
    CatLineRuns(v, args);
    CatLineRuns(V.Next(v, c), args);
    if args != [] {
      var target := Head(args, Shell.BLANK);
      Q.CatAfterWrite(v, a, c, target);
      ShownOnce(target, c.content);
      UsageDiffers(target, V.CatFile(V.Next(v, c), target));
    }
  }

  lemma WriteThenCatLine(v: V.Volume, line: seq<byte>, name: seq<byte>, ext: seq<byte>, content: seq<byte>,
                         args: seq<byte>)
    requires S.Safe(v) && IsWriteLine(line, name, ext, content) && Typeable(CatLine(args))
    requires IsStored(v, WriteCall(name, ext, content))
    ensures IsCString(line) && Shell.IsModelled(line) && IsCString(CatLine(args)) && Shell.IsModelled(CatLine(args))
    ensures ReadsBack(v, name, content, args, Shell.RunLine(Shell.RunLine(v, line).0, CatLine(args)).1)
  {
    WriteLineRuns(v, line, name, ext, content);
    PadOfPrefix(name, ext);
    CatPrintsAfterWrite(v, WriteCall(name, ext, content), name, args);
  }

  /** The machine after Enter was pressed on the line. */
  ghost function Entered(cs: commands, m: Machine): (r: Machine)
    requires Good(m) && KeyIsModelled(cs, m, ENTER_KEY)
    ensures Good(r)
  {
    Key(cs, m, ENTER_KEY).0
  }

  /** What Enter prints between the line feed and the prompt. */
  ghost function Printed(cs: commands, m: Machine): seq<message>
    requires Good(m) && Shell.IsModelled(m.editor.line) && IsCString(m.editor.line)
  {
    Shell.RunLine(m.volume, m.editor.line).1
  }

  /** Enter runs the line, and the quiet keys after it leave the volume alone. */
  lemma AfterEnter(cs: commands, m: Machine, keys: seq<byte>)
    requires Good(m) && IsCString(m.editor.line) && Shell.IsModelled(m.editor.line)
    requires Quiet(cs, Entered(cs, m).editor, keys)
    ensures KeysAreModelled(cs, Entered(cs, m), keys)
    ensures Keys(cs, Entered(cs, m), keys)
         == Machine(Edited(cs, Entered(cs, m).editor, keys), Shell.RunLine(m.volume, m.editor.line).0)
  {
    EnterSubmits(cs, m.editor);
    QuietKeys(cs, Entered(cs, m), keys);
  }

  /** After the line `write N E C` was entered and the file stored, and after any keys that submit nothing and leave
      `cat ` and a text on the line, Enter prints the usage error exactly if the text is empty; exactly C if its first
      word is padded to the same 8 characters as N and no earlier slot has them; and otherwise what it would have
      printed before the write. C is stored whole and with its true size. */
  lemma WhatIsTypedIsReadBack(cs: commands, m: Machine, name: seq<byte>, ext: seq<byte>, content: seq<byte>,
                              keys: seq<byte>, args: seq<byte>)
    requires Good(m) && IsWriteLine(m.editor.line, name, ext, content) && Shell.IsModelled(m.editor.line)
    requires IsStored(m.volume, WriteCall(name, ext, content))
    requires Quiet(cs, Entered(cs, m).editor, keys) && Edited(cs, Entered(cs, m).editor, keys).line == CatLine(args)
    ensures IsCString(CatLine(args)) && Shell.IsModelled(CatLine(args)) && KeysAreModelled(cs, Entered(cs, m), keys)
    ensures var w := Keys(cs, Entered(cs, m), keys);
      && w.editor.line == CatLine(args) && ReadsBack(m.volume, name, content, args, Printed(cs, w))
    ensures S.Kept(content) == content && V.FreeSlotFrom(m.volume.Directory(), 0).Some?
    ensures L.EntryAt(Keys(cs, Entered(cs, m), keys).volume.Directory(),
                      V.FreeSlotFrom(m.volume.Directory(), 0).value).size == |content|
  {
    var line := m.editor.line;
    WriteLineRuns(m.volume, line, name, ext, content);
    AfterEnter(cs, m, keys);
    assert Good(Keys(cs, Entered(cs, m), keys));
    WriteThenCatLine(m.volume, line, name, ext, content, args);
    Q.SizeIsTrue(m.volume, Shell.FatName(name, ext), content);
  }

  // ----- from the first key on

  lemma KeysStep(cs: commands, m: Machine, key: byte, rest: seq<byte>)
    requires Good(m) && KeyIsModelled(cs, m, key)
    ensures KeysAreModelled(cs, m, [key] + rest) <==> KeysAreModelled(cs, Key(cs, m, key).0, rest)
    ensures KeysAreModelled(cs, m, [key] + rest) ==> Keys(cs, m, [key] + rest) == Keys(cs, Key(cs, m, key).0, rest)
  {
    assert ([key] + rest)[1..] == rest;
  }

  lemma SplitFirst(a: seq<byte>, b: seq<byte>)
    requires a != []
    ensures [a[0]] + a[1..] == a && [a[0]] + (a[1..] + b) == a + b
  {
  }

  lemma {:induction false} KeysConcat(cs: commands, m: Machine, a: seq<byte>, b: seq<byte>)
    requires Good(m) && KeysAreModelled(cs, m, a) && KeysAreModelled(cs, Keys(cs, m, a), b)
    ensures KeysAreModelled(cs, m, a + b) && Keys(cs, m, a + b) == Keys(cs, Keys(cs, m, a), b)
    decreases |a|
  {
    if a == [] {
      assert a + b == b;
    } else {
      KeysStep(cs, m, a[0], a[1..]);
      KeysStep(cs, m, a[0], a[1..] + b);
      SplitFirst(a, b);
      KeysConcat(cs, Key(cs, m, a[0]).0, a[1..], b);
    }
  }

  /** Typing a line on an empty one. */
  lemma TypedLine(cs: commands, m: Machine, keys: seq<byte>, line: seq<byte>)
    requires Good(m) && m.editor.line == [] && |line| <= 255 && Spells(m.editor, keys, line)
    ensures KeysAreModelled(cs, m, keys) && Quiet(cs, m.editor, keys)
    ensures Keys(cs, m, keys) == Machine(Edited(cs, m.editor, keys), m.volume) && Keys(cs, m, keys).editor.line == line
  {
    KeysType(cs, m.editor, keys, line);
    QuietKeys(cs, m, keys);
    assert [] + line == line;
  }

  /** Pressing Enter and typing another line. */
  lemma EnteredLine(cs: commands, t: Machine, keys: seq<byte>, next: seq<byte>)
    requires Good(t) && Shell.IsModelled(t.editor.line) && |next| <= 255 && Spells(t.editor, keys, next)
    ensures KeyIsModelled(cs, t, ENTER_KEY) && Quiet(cs, Entered(cs, t).editor, keys)
    ensures KeysAreModelled(cs, Entered(cs, t), keys) && Edited(cs, Entered(cs, t).editor, keys).line == next
    ensures KeysAreModelled(cs, t, [ENTER_KEY] + keys)
    ensures Keys(cs, t, [ENTER_KEY] + keys) == Keys(cs, Entered(cs, t), keys)
  {
    EnterSubmits(cs, t.editor);
    SpellsAnywhere(t.editor, Entered(cs, t).editor, keys, next);
    TypedLine(cs, Entered(cs, t), keys, next);
    KeysStep(cs, t, ENTER_KEY, keys);
  }

  /** Typing a line, pressing Enter, and typing another line. */
  lemma TypedLines(cs: commands, m: Machine, write: seq<byte>, line: seq<byte>, cat: seq<byte>, next: seq<byte>)
    requires Good(m) && m.editor.line == [] && |line| <= 255 && |next| <= 255 && Shell.IsModelled(line)
    requires Spells(m.editor, write, line) && Spells(Edited(cs, m.editor, write), cat, next)
    ensures KeysAreModelled(cs, m, write) && KeysAreModelled(cs, m, write + ([ENTER_KEY] + cat))
    ensures var t := Keys(cs, m, write);
      && t == Machine(Edited(cs, m.editor, write), m.volume) && t.editor.line == line && KeyIsModelled(cs, t, ENTER_KEY)
      && Quiet(cs, Entered(cs, t).editor, cat) && Edited(cs, Entered(cs, t).editor, cat).line == next
      && KeysAreModelled(cs, Entered(cs, t), cat)
      && Keys(cs, m, write + ([ENTER_KEY] + cat)) == Keys(cs, Entered(cs, t), cat)
  {
    TypedLine(cs, m, write, line);
    EnteredLine(cs, Keys(cs, m, write), cat, next);
    KeysConcat(cs, m, write, [ENTER_KEY] + cat);
  }

  /** The keys `write` spell `write N E C`, with shift and caps lock in between, and the keys `cat` after them `cat`, a
      blank and a text. */
  predicate TypesLines(cs: commands, m: Machine, name: seq<byte>, ext: seq<byte>, content: seq<byte>,
                       write: seq<byte>, cat: seq<byte>, args: seq<byte>)
  {
    && IsWriteLine(WriteLine(name, ext, content), name, ext, content) && |CatLine(args)| <= 255
    && Spells(m.editor, write, WriteLine(name, ext, content))
    && Spells(Edited(cs, m.editor, write), cat, CatLine(args))
  }

  predicate IsStored(v: V.Volume, c: V.Command)
    requires v.Valid()
  {
    V.Proper(c) && c.Write? && V.WriteFile(v, c.name, c.content).1 == V.Stored
  }

  /** Typing the two lines on a good machine with an empty line. */
  lemma TypedWriteIsReadBack(cs: commands, m: Machine, name: seq<byte>, ext: seq<byte>, content: seq<byte>,
                             write: seq<byte>, cat: seq<byte>, args: seq<byte>)
    requires Good(m) && m.editor.line == [] && TypesLines(cs, m, name, ext, content, write, cat, args)
    requires IsStored(m.volume, WriteCall(name, ext, content))
    ensures KeysAreModelled(cs, m, write + ([ENTER_KEY] + cat))
    ensures var w := Keys(cs, m, write + ([ENTER_KEY] + cat));
      && w.editor.line == CatLine(args) && IsCString(CatLine(args)) && Shell.IsModelled(CatLine(args))
      && ReadsBack(m.volume, name, content, args, Printed(cs, w))
  {
    WriteLineRuns(m.volume, WriteLine(name, ext, content), name, ext, content);
    TypedLines(cs, m, write, WriteLine(name, ext, content), cat, CatLine(args));
    WhatIsTypedIsReadBack(cs, Keys(cs, m, write), name, ext, content, cat, args);
  }

  /** A name that no earlier slot has reads back as the content. */
  lemma NewNameReadsBack(v: V.Volume, name: seq<byte>, content: seq<byte>, args: seq<byte>, printed: seq<message>)
    requires S.Safe(v) && IsCString(CatLine(args)) && Shell.IsModelled(CatLine(args))
    requires ReadsBack(v, name, content, args, printed)
    requires args != [] && Pad(Head(args, Shell.BLANK), 8) == Pad(name, 8) && Q.NoneBefore(v, Head(args, Shell.BLANK))
    ensures printed == Shows(content)
  {
  }

  /** The line of m is empty, and its disk has a zero FAT and root; the second line is `cat N`, with a second blank
      for the empty N. */
  predicate TypesFirstFile(cs: commands, m: Machine, name: seq<byte>, ext: seq<byte>, content: seq<byte>,
                           write: seq<byte>, cat: seq<byte>, args: seq<byte>)
  {
    && V.Blank(m.volume.disk) && m.volume.cwd == 0 && Sane(m.editor) && m.editor.line == []
    && TypesLines(cs, m, name, ext, content, write, cat, args) && args != [] && Head(args, Shell.BLANK) == name
  }

  /** Then, after the first keys, Enter, and the second keys, Enter prints exactly C. */
  lemma FirstFileIsReadBack(cs: commands, m: Machine, name: seq<byte>, ext: seq<byte>, content: seq<byte>,
                            write: seq<byte>, cat: seq<byte>, args: seq<byte>)
    requires TypesFirstFile(cs, m, name, ext, content, write, cat, args)
    ensures Good(m) && KeysAreModelled(cs, m, write + ([ENTER_KEY] + cat))
    ensures var w := Keys(cs, m, write + ([ENTER_KEY] + cat));
      && IsCString(w.editor.line) && Shell.IsModelled(w.editor.line)
      && Printed(cs, w) == Shows(content)
  {
    S.BlankSafe(m.volume.disk);
    WriteLineRuns(m.volume, WriteLine(name, ext, content), name, ext, content);
    Q.FirstWriteIsStored(m.volume.disk, Shell.FatName(name, ext), content, name);
    TypedWriteIsReadBack(cs, m, name, ext, content, write, cat, args);
    var w := Keys(cs, m, write + ([ENTER_KEY] + cat));
    NewNameReadsBack(m.volume, name, content, args, Printed(cs, w));
  }

  // ----- with any other lines in between

  /** The calls that a key makes. */
  function CallOf(line: seq<byte>, p: Press): seq<V.Command> {
    var action := Shell.Parse(line);
    if p.submits && (action.Call? || action.Install?) then [action.call] else []
  }

  ghost function CallsOf(cs: commands, m: Machine, keys: seq<byte>): seq<V.Command>
    requires Good(m) && KeysAreModelled(cs, m, keys)
    decreases |keys|
  {
    if keys == [] then []
    else CallOf(m.editor.line, PressKey(cs, m.editor, keys[0])) + CallsOf(cs, Key(cs, m, keys[0]).0, keys[1..])
  }

  lemma PressedRuns(m: Machine, p: Press)
    requires Good(m) && Sane(p.editor) && (p.submits ==> Shell.IsModelled(m.editor.line))
    ensures forall c :: c in CallOf(m.editor.line, p) ==> V.Proper(c)
    ensures Pressed(m, p).0.volume == S.Run(m.volume, CallOf(m.editor.line, p))
  {
    TypeableIsCString(m.editor.line);
    Shell.ParseIsProper(m.editor.line);
  }

  lemma {:induction false} RunConcat(v: V.Volume, xs: seq<V.Command>, ys: seq<V.Command>)
    requires S.Safe(v) && (forall c :: c in xs ==> V.Proper(c)) && (forall c :: c in ys ==> V.Proper(c))
    ensures S.Run(v, xs + ys) == S.Run(S.Run(v, xs), ys)
    decreases |xs|
  {
    if xs == [] {
      assert xs + ys == ys;
    } else {
      assert xs[0] in xs && (xs + ys)[1..] == xs[1..] + ys;
      S.StepKeepsSafe(v, xs[0]);
      RunConcat(V.Next(v, xs[0]), xs[1..], ys);
    }
  }

  /** Any run of keys takes the disk where the calls that its lines make take it. */
  lemma {:induction false} KeysRun(cs: commands, m: Machine, keys: seq<byte>)
    requires Good(m) && KeysAreModelled(cs, m, keys)
    ensures forall c :: c in CallsOf(cs, m, keys) ==> V.Proper(c)
    ensures Keys(cs, m, keys).volume == S.Run(m.volume, CallsOf(cs, m, keys))
    decreases |keys|
  {
    if keys != [] {
      var p, n := PressKey(cs, m.editor, keys[0]), Key(cs, m, keys[0]).0;
      KeyKeepsSane(cs, m.editor, keys[0]);
      PressedRuns(m, p);
      KeysRun(cs, n, keys[1..]);
      RunConcat(m.volume, CallOf(m.editor.line, p), CallsOf(cs, n, keys[1..]));
    }
  }

  /** After a write that no earlier slot hides, and a run of calls that neither take nor hide the file, cat shows its
      content in the directory where it was written. */
  lemma CatAfterRun(v: V.Volume, a: S.FileSystem, c: V.Command, cs: seq<V.Command>, target: seq<byte>)
    requires S.Represents(v, a) && c.Write? && V.Proper(c) && V.Proper(V.Cat(target)) && V.ReplyTo(v, c) == V.Stored
    requires Pad(target, 8) == c.name[..8] && Q.IsAscii(c.name[..8]) && Q.NoneBefore(v, target)
    requires forall x :: x in cs ==> V.Proper(x)
    requires V.FreeSlotFrom(v.Directory(), 0).Some?
    requires var b := S.Perform(a, c).0;
      && W.Stays(b, cs, a.cwd, V.FreeSlotFrom(v.Directory(), 0).value, Pad(target, 8))
      && S.RunAbstract(b, cs).cwd == a.cwd
    ensures S.Safe(V.Next(v, c)) && V.CatEnds(S.Run(V.Next(v, c), cs), target)
    ensures V.CatFile(S.Run(V.Next(v, c), cs), target) == V.Shown([S.Kept(c.content)])
  {
    var b, k := S.Perform(a, c).0, V.FreeSlotFrom(v.Directory(), 0).value;
    Q.StoredNode(v, a, c, target);
    S.StepSimulates(v, a, c);
    S.RunSimulates(V.Next(v, c), b, cs);
    W.FoundLasts(b, cs, a.cwd, k, Pad(target, 8));
    Q.CatShows(S.Run(V.Next(v, c), cs), S.RunAbstract(b, cs), target, k);
  }

  /** What the calls between the two lines must be: none takes the file, or hides it behind an earlier slot of its
      name, and they end in the directory where it was written. */
  ghost predicate LeaveIt(v: V.Volume, a: S.FileSystem, c: V.Command, cs: seq<V.Command>, target: seq<byte>)
    requires v.Valid() && V.Proper(c) && forall x :: x in cs ==> V.Proper(x)
  {
    var b, k := S.Perform(a, c).0, V.FreeSlotFrom(v.Directory(), 0);
    k.Some? && W.Stays(b, cs, a.cwd, k.value, Pad(target, 8)) && S.RunAbstract(b, cs).cwd == a.cwd
  }

  /** The file was stored, with no earlier slot of its name; the keys after Enter leave it alone, and leave `cat N` on
      the line. */
  ghost predicate LaterCat(cs: commands, m: Machine, a: S.FileSystem, name: seq<byte>, ext: seq<byte>,
                           content: seq<byte>, keys: seq<byte>, args: seq<byte>)
    requires Good(m) && KeyIsModelled(cs, m, ENTER_KEY) && KeysAreModelled(cs, Entered(cs, m), keys)
    requires forall c :: c in CallsOf(cs, Entered(cs, m), keys) ==> V.Proper(c)
  {
    && S.Represents(m.volume, a) && IsStored(m.volume, WriteCall(name, ext, content))
    && Q.NoneBefore(m.volume, name)
    && Keys(cs, Entered(cs, m), keys).editor.line == CatLine(args) && args != []
    && Pad(Head(args, Shell.BLANK), 8) == Pad(name, 8)
    && LeaveIt(m.volume, a, WriteCall(name, ext, content), CallsOf(cs, Entered(cs, m), keys), name)
  }

  /** After the line `write N E C` was entered and the file stored, with no earlier slot of its name, and after any
      keys, that enter any lines of modelled commands, and leave `cat N` on the line, Enter prints exactly C, if the
      calls in between leave the file alone. */
  lemma ReadBackLater(cs: commands, m: Machine, a: S.FileSystem, name: seq<byte>, ext: seq<byte>, content: seq<byte>,
                      keys: seq<byte>, args: seq<byte>)
    requires Good(m) && IsWriteLine(m.editor.line, name, ext, content) && Shell.IsModelled(m.editor.line)
    requires KeysAreModelled(cs, Entered(cs, m), keys)
    requires forall c :: c in CallsOf(cs, Entered(cs, m), keys) ==> V.Proper(c)
    requires LaterCat(cs, m, a, name, ext, content, keys, args)
    ensures Keys(cs, Entered(cs, m), keys).editor.line == CatLine(args)
    ensures IsCString(CatLine(args)) && Shell.IsModelled(CatLine(args))
    ensures Printed(cs, Keys(cs, Entered(cs, m), keys)) == Shows(content)
  {
    var call, w, target := WriteCall(name, ext, content), Keys(cs, Entered(cs, m), keys), Head(args, Shell.BLANK);
    WriteLineRuns(m.volume, m.editor.line, name, ext, content);
    EnterSubmits(cs, m.editor);
    KeysRun(cs, Entered(cs, m), keys);
    PadOfPrefix(name, ext);
    CatLineRuns(w.volume, args);
    CatAfterRun(m.volume, a, call, CallsOf(cs, Entered(cs, m), keys), target);
    ShownOnce(target, content);
  }
}
