/** The line editor behind the keyboard interrupt: keys, history and completion. */
module Keyboard {
  import opened Bytes
  import opened Strings
  import Shell
  import S = Simulation
  import V = Volume

  const TAB_KEY: byte := 0x0F
  const UP_KEY: byte := 0x48

  function Prompt(): seq<byte> {
    Ascii("OS> ")
  }

  type ascii = x: int | 0 <= x < 0x80

  /** Character i of a key row; all of them are ASCII. */
  function CharAt(row: string, i: nat): ascii
    requires i < |row|
  {
    row[i] as int % 0x80
  }

  /** The two key tables, from scancode 0 to 57, row by row; keys without a character have 0. */
  function Entry(shifted: bool, scancode: byte): ascii
    requires scancode <= 57
  {
    if scancode == 0x01 then 27
    else if 0x02 <= scancode <= 0x0B then CharAt(if shifted then "!@#$%^&*()" else "1234567890", scancode - 0x02)
    else if 0x0C <= scancode <= 0x0D then CharAt(if shifted then "_+" else "-=", scancode - 0x0C)
    else if scancode == 0x0E then BACKSPACE
    else if scancode == 0x0F then 9
    else if 0x10 <= scancode <= 0x19 then CharAt(if shifted then "QWERTYUIOP" else "qwertyuiop", scancode - 0x10)
    else if 0x1A <= scancode <= 0x1B then CharAt(if shifted then "{}" else "[]", scancode - 0x1A)
    else if scancode == 0x1C then LINE_FEED
    else if 0x1E <= scancode <= 0x26 then CharAt(if shifted then "ASDFGHJKL" else "asdfghjkl", scancode - 0x1E)
    else if 0x27 <= scancode <= 0x29 then CharAt(if shifted then ":\"~" else ";'`", scancode - 0x27)
    else if scancode == 0x2B then CharAt(if shifted then "|" else "\\", 0)
    else if 0x2C <= scancode <= 0x32 then CharAt(if shifted then "ZXCVBNM" else "zxcvbnm", scancode - 0x2C)
    else if 0x33 <= scancode <= 0x35 then CharAt(if shifted then "<>?" else ",./", scancode - 0x33)
    else if scancode == 0x37 then CharAt("*", 0)
    else if scancode == 0x39 then CharAt(" ", 0)
    else 0
  }

  // ----- the editor as a value

  datatype Editor = Editor(line: seq<byte>, last: seq<byte>, shift: bool, caps: bool)

  /** What a key press does to the editor, the characters it sends to the screen, and the line it submits. */
  datatype Press = Press(editor: Editor, echo: seq<byte>, submits: bool)

  type commands = cs: seq<seq<byte>> | forall i :: 0 <= i < |cs| ==> Typeable(cs[i]) && |cs[i]| <= 255

  /** A text that the editor can hold: no NUL, no line feed, no backspace, only ASCII. */
  predicate Typeable(s: seq<byte>) {
    forall i :: 0 <= i < |s| ==> 0 < s[i] < 0x80 && s[i] != LINE_FEED && s[i] != BACKSPACE
  }

  lemma TypeableIsCString(s: seq<byte>)
    requires Typeable(s)
    ensures IsCString(s)
  {
  }

  predicate Sane(e: Editor) {
    |e.line| <= 255 && |e.last| <= 255 && Typeable(e.line) && Typeable(e.last)
  }

  /** The character of a key under shift and caps lock. */
  function KeyChar(e: Editor, scancode: byte): ascii
    requires scancode <= 57
  {
    var normal, shifted := Entry(false, scancode), Entry(true, scancode);
    if e.caps && 'a' as int <= normal <= 'z' as int then if e.shift then normal else shifted
    else if e.shift then shifted else normal
  }

  /** The first command from i on that has the line as a prefix, or the number of commands. */
  function FirstCompletion(cs: commands, line: seq<byte>, i: nat): (r: nat)
    requires i <= |cs|
    ensures i <= r <= |cs| && (r < |cs| ==> line <= cs[r]) && forall j :: i <= j < r ==> !(line <= cs[j])
    decreases |cs| - i
  {
    if i == |cs| || line <= cs[i] then i else FirstCompletion(cs, line, i + 1)
  }

  function Complete(cs: commands, line: seq<byte>): seq<byte> {
    var i := FirstCompletion(cs, line, 0);
    if line == [] || i == |cs| then line else cs[i]
  }

  function Backspaces(n: nat): seq<byte> {
    seq(n, _ => BACKSPACE)
  }

  function Type(e: Editor, c: ascii): Press {
    if c == LINE_FEED then Press(e.(line := [], last := if e.line == [] then e.last else e.line), [LINE_FEED], true)
    else if c == BACKSPACE then
      if e.line == [] then Press(e, [], false) else Press(e.(line := e.line[..|e.line| - 1]), [BACKSPACE], false)
    else if c != 0 && |e.line| < 255 then Press(e.(line := e.line + [c]), [c], false)
    else Press(e, [], false)
  }

  function PressKey(cs: commands, e: Editor, scancode: byte): Press {
    if scancode == TAB_KEY then
      var line := Complete(cs, e.line);
      Press(e.(line := line), line[|e.line|..], false)
    else if scancode == UP_KEY && e.last != [] then
      Press(e.(line := e.last), Backspaces(|e.line|) + e.last, false)
    else if scancode == 0x2A || scancode == 0x36 then Press(e.(shift := true), [], false)
    else if scancode == 0xAA || scancode == 0xB6 then Press(e.(shift := false), [], false)
    else if scancode == 0x3A then Press(e.(caps := !e.caps), [], false)
    else if scancode <= 57 then Type(e, KeyChar(e, scancode))
    else Press(e, [], false)
  }

  // ----- what every key keeps

  lemma TypeKeeps(e: Editor, c: ascii)
    requires Sane(e)
    ensures Sane(Type(e, c).editor)
    ensures Type(e, c).submits || Shown(e.line, Type(e, c).echo) == Type(e, c).editor.line
  {
    var p := Type(e, c);
    if !p.submits && p.echo != [] {
      assert p.echo == [c] && p.echo[1..] == [];
    }
  }

  lemma KeyKeepsSane(cs: commands, e: Editor, scancode: byte)
    requires Sane(e)
    ensures Sane(PressKey(cs, e, scancode).editor)
  {
    if scancode <= 57 {
      TypeKeeps(e, KeyChar(e, scancode));
    }
  }

  /** The characters on the line after the screen has processed an echo: a backspace deletes the last one. */
  function Shown(line: seq<byte>, echo: seq<byte>): seq<byte>
    decreases |echo|
  {
    if echo == [] then line
    else
      Shown(if echo[0] != BACKSPACE then line + [echo[0]] else if line == [] then [] else line[..|line| - 1], echo[1..])
  }

  lemma {:induction false} ShownConcat(line: seq<byte>, a: seq<byte>, b: seq<byte>)
    ensures Shown(line, a + b) == Shown(Shown(line, a), b)
    decreases |a|
  {
    if a == [] {
      assert a + b == b;
    } else {
      assert (a + b)[1..] == a[1..] + b;
      var next := if a[0] != BACKSPACE then line + [a[0]] else if line == [] then [] else line[..|line| - 1];
      ShownConcat(next, a[1..], b);
    }
  }

  lemma {:induction false} ShownText(line: seq<byte>, t: seq<byte>)
    requires Typeable(t)
    ensures Shown(line, t) == line + t
    decreases |t|
  {
    if t == [] {
      assert line + t == line;
    } else {
      ShownText(line + [t[0]], t[1..]);
      assert line + [t[0]] + t[1..] == line + t;
    }
  }

  lemma {:induction false} ShownBackspaces(line: seq<byte>, n: nat)
    requires n <= |line|
    ensures Shown(line, Backspaces(n)) == line[..|line| - n]
    decreases n
  {
    if n > 0 {
      assert Backspaces(n)[1..] == Backspaces(n - 1);
      ShownBackspaces(line[..|line| - 1], n - 1);
      assert line[..|line| - 1][..|line| - n] == line[..|line| - n];
    }
  }

  /** One key: the echo, with backspaces read as deletions, turns the shown line into the new line. */
  lemma EchoIsLine(cs: commands, e: Editor, scancode: byte)
    requires Sane(e) && !PressKey(cs, e, scancode).submits
    ensures Shown(e.line, PressKey(cs, e, scancode).echo) == PressKey(cs, e, scancode).editor.line
  {
    if scancode == TAB_KEY {
      var line := Complete(cs, e.line);
      assert Typeable(line[|e.line|..]);
      ShownText(e.line, line[|e.line|..]);
      assert e.line + line[|e.line|..] == line;
    } else if scancode == UP_KEY && e.last != [] {
      ShownConcat(e.line, Backspaces(|e.line|), e.last);
      ShownBackspaces(e.line, |e.line|);
      ShownText([], e.last);
    } else if scancode <= 57 {
      TypeKeeps(e, KeyChar(e, scancode));
    }
  }

  /** A run of keys that submits nothing. */
  predicate Quiet(cs: commands, e: Editor, keys: seq<byte>)
    decreases |keys|
  {
    keys == [] || (!PressKey(cs, e, keys[0]).submits && Quiet(cs, PressKey(cs, e, keys[0]).editor, keys[1..]))
  }

  function Edited(cs: commands, e: Editor, keys: seq<byte>): Editor
    decreases |keys|
  {
    if keys == [] then e else Edited(cs, PressKey(cs, e, keys[0]).editor, keys[1..])
  }

  function Echoed(cs: commands, e: Editor, keys: seq<byte>): seq<byte>
    decreases |keys|
  {
    if keys == [] then [] else PressKey(cs, e, keys[0]).echo + Echoed(cs, PressKey(cs, e, keys[0]).editor, keys[1..])
  }

  /** Every run of keys: from a prompt on, what the screen shows of the line is the line that Enter would
      submit; it has no NUL and at most 255 characters. */
  lemma {:induction false} ScreenShowsLine(cs: commands, e: Editor, keys: seq<byte>)
    requires Sane(e) && Quiet(cs, e, keys)
    ensures Sane(Edited(cs, e, keys))
    ensures Shown(e.line, Echoed(cs, e, keys)) == Edited(cs, e, keys).line
    decreases |keys|
  {
    if keys != [] {
      var p := PressKey(cs, e, keys[0]);
      KeyKeepsSane(cs, e, keys[0]);
      EchoIsLine(cs, e, keys[0]);
      ScreenShowsLine(cs, p.editor, keys[1..]);
      ShownConcat(e.line, p.echo, Echoed(cs, p.editor, keys[1..]));
    }
  }

  predicate IsShiftPress(key: byte) {
    key == 0x2A || key == 0x36
  }

  predicate IsShiftRelease(key: byte) {
    key == 0xAA || key == 0xB6
  }

  /** The keys that only change which characters later keys have. */
  predicate IsModifier(key: byte) {
    IsShiftPress(key) || IsShiftRelease(key) || key == 0x3A
  }

  function Modified(e: Editor, key: byte): Editor {
    if IsShiftPress(key) then e.(shift := true)
    else if IsShiftRelease(key) then e.(shift := false)
    else if key == 0x3A then e.(caps := !e.caps)
    else e
  }

  /** The key has the character c under the editor's shift and caps lock. */
  predicate KeyOf(e: Editor, key: byte, c: byte) {
    && key <= 57 && key != TAB_KEY && !IsModifier(key) && KeyChar(e, key) == c
    && c != 0 && c != LINE_FEED && c != BACKSPACE
  }

  /** The keys spell the text: each is a shift or caps lock key, or has the next character of the text. */
  predicate Spells(e: Editor, keys: seq<byte>, text: seq<byte>)
    decreases |keys|
  {
    if keys == [] then text == []
    else if IsModifier(keys[0]) then Spells(Modified(e, keys[0]), keys[1..], text)
    else text != [] && KeyOf(e, keys[0], text[0]) && Spells(e, keys[1..], text[1..])
  }

  /** The key has the character c with shift held or without. */
  predicate HasLetter(key: byte, c: byte) {
    && key <= 57 && key != TAB_KEY && !IsModifier(key) && (Entry(false, key) == c || Entry(true, key) == c)
    && c != 0 && c != LINE_FEED && c != BACKSPACE
  }

  predicate HasKey(c: byte) {
    exists key: byte :: HasLetter(key, c)
  }

  /** Whether shift must be held for the key to have the character c. */
  predicate NeedsShift(e: Editor, key: byte, c: byte)
    requires HasLetter(key, c)
  {
    var inverted := e.caps && 'a' as int <= Entry(false, key) <= 'z' as int;
    if Entry(false, key) == c then inverted else !inverted
  }

  /** Every text of characters that some key has is spelled by some keys, in every state of shift and caps lock. */
  lemma {:induction false} TextHasKeys(e: Editor, text: seq<byte>) returns (keys: seq<byte>)
    requires forall i :: 0 <= i < |text| ==> HasKey(text[i])
    ensures Spells(e, keys, text)
    decreases |text|
  {
    if text == [] {
      keys := [];
    } else {
      assert HasKey(text[0]);
      var key: byte :| HasLetter(key, text[0]);
      var shift := if NeedsShift(e, key, text[0]) then 0x2A else 0xAA;
      assert forall i :: 0 <= i < |text[1..]| ==> text[1..][i] == text[i + 1];
      var rest := TextHasKeys(Modified(e, shift), text[1..]);
      assert ([key] + rest)[1..] == rest;
      assert Spells(Modified(e, shift), [key] + rest, text);
      keys := [shift] + ([key] + rest);
      assert keys[1..] == [key] + rest;
    }
  }

  lemma LetterTypes(cs: commands, e: Editor, key: byte, c: ascii)
    requires |e.line| < 255 && KeyOf(e, key, c)
    ensures PressKey(cs, e, key) == Press(e.(line := e.line + [c]), [c], false)
  {
  }

  lemma ModifierTypes(cs: commands, e: Editor, key: byte)
    requires IsModifier(key)
    ensures PressKey(cs, e, key) == Press(Modified(e, key), [], false)
  {
  }

  /** What the keys of a text have depends on shift and caps lock alone. */
  lemma {:induction false} SpellsAnywhere(e: Editor, f: Editor, keys: seq<byte>, text: seq<byte>)
    requires Spells(e, keys, text) && e.shift == f.shift && e.caps == f.caps
    ensures Spells(f, keys, text)
    decreases |keys|
  {
    if keys != [] {
      if IsModifier(keys[0]) {
        SpellsAnywhere(Modified(e, keys[0]), Modified(f, keys[0]), keys[1..], text);
      } else {
        SpellsAnywhere(e, f, keys[1..], text[1..]);
      }
    }
  }

  /** Pressing the keys of a text appends it to the line. */
  lemma {:induction false} KeysType(cs: commands, e: Editor, keys: seq<byte>, text: seq<byte>)
    requires Sane(e) && |e.line| + |text| <= 255 && Spells(e, keys, text)
    ensures Quiet(cs, e, keys)
    ensures Edited(cs, e, keys).line == e.line + text && Edited(cs, e, keys).last == e.last
    decreases |keys|
  {
    if keys == [] {
      assert e.line + text == e.line;
    } else if IsModifier(keys[0]) {
      ModifierTypes(cs, e, keys[0]);
      KeysType(cs, Modified(e, keys[0]), keys[1..], text);
    } else {
      var f := e.(line := e.line + [text[0]]);
      LetterTypes(cs, e, keys[0], text[0]);
      KeyKeepsSane(cs, e, keys[0]);
      SpellsAnywhere(e, f, keys[1..], text[1..]);
      KeysType(cs, f, keys[1..], text[1..]);
      assert e.line + [text[0]] + text[1..] == e.line + text;
    }
  }

  // ----- which characters the keys have

  /** A letter key: shift and caps lock cancel each other. */
  lemma LetterKey(e: Editor, scancode: byte)
    requires scancode <= 57 && 97 <= Entry(false, scancode) <= 122
    ensures KeyChar(e, scancode) == if e.shift == e.caps then Entry(false, scancode) else Entry(true, scancode)
  {
  }

  /** Any other key: caps lock does not matter. */
  lemma OtherKey(e: Editor, scancode: byte)
    requires scancode <= 57 && !(97 <= Entry(false, scancode) <= 122)
    ensures KeyChar(e, scancode) == if e.shift then Entry(true, scancode) else Entry(false, scancode)
  {
  }

  /** n keys with consecutive scancodes. */
  function Row(first: byte, n: nat): seq<byte>
    requires first + n <= 58
  {
    seq(n, i requires 0 <= i < n => first + i)
  }

  lemma {:induction false} RowSpells(e: Editor, keys: seq<byte>, text: seq<byte>)
    requires |keys| == |text| && forall i :: 0 <= i < |keys| ==> KeyOf(e, keys[i], text[i])
    ensures Spells(e, keys, text)
    decreases |keys|
  {
    if keys != [] {
      assert KeyOf(e, keys[0], text[0]);
      forall i | 0 <= i < |keys| - 1
        ensures KeyOf(e, keys[1..][i], text[1..][i])
      {
        assert KeyOf(e, keys[i + 1], text[i + 1]);
      }
      RowSpells(e, keys[1..], text[1..]);
    }
  }

  /** A row of keys with these characters, all letters or none, and none of them a key of its own. */
  predicate IsRow(first: byte, normal: string, shifted: string, letters: bool) {
    && |shifted| == |normal| && first + |normal| <= 58
    && forall i: nat :: i < |normal| ==> IsRowKey(first + i, normal[i], shifted[i], letters)
  }

  predicate IsRowKey(key: byte, normal: char, shifted: char, letters: bool) {
    && key <= 57 && key != TAB_KEY && !IsModifier(key)
    && Entry(false, key) == normal as int && 32 <= normal as int < 127
    && Entry(true, key) == shifted as int && 32 <= shifted as int < 127
    && (97 <= normal as int <= 122 <==> letters)
  }

  lemma AsciiAt(s: string, i: nat)
    requires i < |s| && s[i] as int < 0x80
    ensures Ascii(s)[i] == s[i] as int
  {
  }

  lemma TypedChar(e: Editor, key: byte, normal: byte, shifted: byte, c: byte)
    requires key <= 57 && key != TAB_KEY && !IsModifier(key)
    requires Entry(false, key) == normal && Entry(true, key) == shifted && 32 <= c < 127
    requires c == if (if 97 <= normal <= 122 then e.shift != e.caps else e.shift) then shifted else normal
    ensures KeyOf(e, key, c)
  {
    if 97 <= normal <= 122 {
      LetterKey(e, key);
    } else {
      OtherKey(e, key);
    }
  }

  lemma RowKey(e: Editor, key: byte, normal: char, shifted: char, letters: bool)
    requires IsRowKey(key, normal, shifted, letters)
    ensures KeyOf(e, key, (if (if letters then e.shift != e.caps else e.shift) then shifted else normal) as int)
  {
    var c := if (if letters then e.shift != e.caps else e.shift) then shifted else normal;
    TypedChar(e, key, normal as int, shifted as int, c as int);
  }

  /** What a row of keys types. */
  lemma RowTypes(cs: commands, e: Editor, first: byte, normal: string, shifted: string, letters: bool, typed: string)
    requires Sane(e) && e.line == [] && IsRow(first, normal, shifted, letters)
    requires typed == if (if letters then e.shift != e.caps else e.shift) then shifted else normal
    ensures Edited(cs, e, Row(first, |normal|)).line == Ascii(typed)
  {
    var keys, text := Row(first, |normal|), Ascii(typed);
    forall i | 0 <= i < |keys|
      ensures KeyOf(e, keys[i], text[i])
    {
      assert IsRowKey(first + i, normal[i], shifted[i], letters);
      RowKey(e, first + i, normal[i], shifted[i], letters);
      AsciiAt(typed, i);
    }
    RowSpells(e, keys, text);
    KeysType(cs, e, keys, text);
    assert [] + text == text;
  }

  lemma LetterRow(cs: commands, e: Editor, first: byte, normal: string, shifted: string)
    requires Sane(e) && e.line == [] && IsRow(first, normal, shifted, true)
    ensures Edited(cs, e, Row(first, |normal|)).line == Ascii(if e.shift != e.caps then shifted else normal)
  {
    RowTypes(cs, e, first, normal, shifted, true, if e.shift != e.caps then shifted else normal);
  }

  lemma SymbolRow(cs: commands, e: Editor, first: byte, normal: string, shifted: string)
    requires Sane(e) && e.line == [] && IsRow(first, normal, shifted, false)
    ensures Edited(cs, e, Row(first, |normal|)).line == Ascii(if e.shift then shifted else normal)
  {
    RowTypes(cs, e, first, normal, shifted, false, if e.shift then shifted else normal);
  }

  // Every key with a character, by its scancode, in every state of shift and caps lock.

  lemma DigitRow()
    ensures IsRow(0x02, "1234567890", "!@#$%^&*()", false)
  {
  }

  lemma DigitRowCodes()
    ensures Row(0x02, 10) == [0x02, 0x03, 0x04, 0x05, 0x06, 0x07, 0x08, 0x09, 0x0A, 0x0B]
  {
  }

  lemma DigitKeys(cs: commands, e: Editor)
    requires Sane(e) && e.line == []
    ensures Edited(cs, e, [0x02, 0x03, 0x04, 0x05, 0x06, 0x07, 0x08, 0x09, 0x0A, 0x0B]).line
         == Ascii(if e.shift then "!@#$%^&*()" else "1234567890")
  {
    DigitRow();
    SymbolRow(cs, e, 0x02, "1234567890", "!@#$%^&*()");
    DigitRowCodes();
  }

  lemma TopRow()
    ensures IsRow(0x10, "qwertyuiop", "QWERTYUIOP", true)
  {
  }

  lemma TopRowCodes()
    ensures Row(0x10, 10) == [0x10, 0x11, 0x12, 0x13, 0x14, 0x15, 0x16, 0x17, 0x18, 0x19]
  {
  }

  lemma TopRowKeys(cs: commands, e: Editor)
    requires Sane(e) && e.line == []
    ensures Edited(cs, e, [0x10, 0x11, 0x12, 0x13, 0x14, 0x15, 0x16, 0x17, 0x18, 0x19]).line
         == Ascii(if e.shift != e.caps then "QWERTYUIOP" else "qwertyuiop")
  {
    TopRow();
    LetterRow(cs, e, 0x10, "qwertyuiop", "QWERTYUIOP");
    TopRowCodes();
  }

  lemma HomeRow()
    ensures IsRow(0x1E, "asdfghjkl", "ASDFGHJKL", true)
  {
  }

  lemma HomeRowCodes()
    ensures Row(0x1E, 9) == [0x1E, 0x1F, 0x20, 0x21, 0x22, 0x23, 0x24, 0x25, 0x26]
  {
  }

  lemma HomeRowKeys(cs: commands, e: Editor)
    requires Sane(e) && e.line == []
    ensures Edited(cs, e, [0x1E, 0x1F, 0x20, 0x21, 0x22, 0x23, 0x24, 0x25, 0x26]).line
         == Ascii(if e.shift != e.caps then "ASDFGHJKL" else "asdfghjkl")
  {
    HomeRow();
    LetterRow(cs, e, 0x1E, "asdfghjkl", "ASDFGHJKL");
    HomeRowCodes();
  }

  lemma BottomRow()
    ensures IsRow(0x2C, "zxcvbnm", "ZXCVBNM", true)
  {
  }

  lemma BottomRowCodes()
    ensures Row(0x2C, 7) == [0x2C, 0x2D, 0x2E, 0x2F, 0x30, 0x31, 0x32]
  {
  }

  lemma BottomRowKeys(cs: commands, e: Editor)
    requires Sane(e) && e.line == []
    ensures Edited(cs, e, [0x2C, 0x2D, 0x2E, 0x2F, 0x30, 0x31, 0x32]).line
         == Ascii(if e.shift != e.caps then "ZXCVBNM" else "zxcvbnm")
  {
    BottomRow();
    LetterRow(cs, e, 0x2C, "zxcvbnm", "ZXCVBNM");
    BottomRowCodes();
  }

  lemma DashKeys(cs: commands, e: Editor)
    requires Sane(e) && e.line == []
    ensures Edited(cs, e, [0x0C, 0x0D]).line == Ascii(if e.shift then "_+" else "-=")
  {
    SymbolRow(cs, e, 0x0C, "-=", "_+");
    assert Row(0x0C, 2) == [0x0C, 0x0D];
  }

  lemma BracketKeys(cs: commands, e: Editor)
    requires Sane(e) && e.line == []
    ensures Edited(cs, e, [0x1A, 0x1B]).line == Ascii(if e.shift then "{}" else "[]")
  {
    SymbolRow(cs, e, 0x1A, "[]", "{}");
    assert Row(0x1A, 2) == [0x1A, 0x1B];
  }

  lemma QuoteKeys(cs: commands, e: Editor)
    requires Sane(e) && e.line == []
    ensures Edited(cs, e, [0x27, 0x28, 0x29]).line == Ascii(if e.shift then ":\"~" else ";'`")
  {
    SymbolRow(cs, e, 0x27, ";'`", ":\"~");
    assert Row(0x27, 3) == [0x27, 0x28, 0x29];
  }

  lemma BackslashKey(cs: commands, e: Editor)
    requires Sane(e) && e.line == []
    ensures Edited(cs, e, [0x2B]).line == Ascii(if e.shift then "|" else "\\")
  {
    SymbolRow(cs, e, 0x2B, "\\", "|");
    assert Row(0x2B, 1) == [0x2B];
  }

  lemma CommaKeys(cs: commands, e: Editor)
    requires Sane(e) && e.line == []
    ensures Edited(cs, e, [0x33, 0x34, 0x35]).line == Ascii(if e.shift then "<>?" else ",./")
  {
    SymbolRow(cs, e, 0x33, ",./", "<>?");
    assert Row(0x33, 3) == [0x33, 0x34, 0x35];
  }

  lemma StarAndBlankKeys(cs: commands, e: Editor)
    requires Sane(e) && e.line == []
    ensures Edited(cs, e, [0x37]).line == Ascii("*") && Edited(cs, e, [0x39]).line == Ascii(" ")
  {
    SymbolRow(cs, e, 0x37, "*", "*");
    SymbolRow(cs, e, 0x39, " ", " ");
    assert Row(0x37, 1) == [0x37] && Row(0x39, 1) == [0x39];
  }

  /** The keys without a printable character: shift, caps lock, backspace, enter, escape, and the others. */
  lemma ControlKeys(cs: commands, e: Editor, scancode: byte)
    ensures scancode == 0x2A || scancode == 0x36 ==> PressKey(cs, e, scancode) == Press(e.(shift := true), [], false)
    ensures scancode == 0xAA || scancode == 0xB6 ==> PressKey(cs, e, scancode) == Press(e.(shift := false), [], false)
    ensures scancode == 0x3A ==> PressKey(cs, e, scancode) == Press(e.(caps := !e.caps), [], false)
    ensures scancode == 0x0E && e.line != [] ==>
      PressKey(cs, e, scancode) == Press(e.(line := e.line[..|e.line| - 1]), [8], false)
    ensures scancode == 0x0E && e.line == [] ==> PressKey(cs, e, scancode) == Press(e, [], false)
    ensures scancode == 0x1C ==>
      PressKey(cs, e, scancode) == Press(e.(line := [], last := if e.line == [] then e.last else e.line), [10], true)
    ensures scancode == 0x01 && |e.line| < 255 ==>
      PressKey(cs, e, scancode) == Press(e.(line := e.line + [27]), [27], false)
    ensures scancode in [0x00, 0x1D, 0x38] ==> PressKey(cs, e, scancode) == Press(e, [], false)
    ensures scancode == 0x48 && e.last == [] ==> PressKey(cs, e, scancode) == Press(e, [], false)
    ensures scancode > 0x3A && scancode !in [0x48, 0xAA, 0xB6] ==> PressKey(cs, e, scancode) == Press(e, [], false)
  {
  }

  /** The up key erases the line and brings back the remembered one. */
  lemma UpKey(cs: commands, e: Editor)
    requires e.last != []
    ensures PressKey(cs, e, 0x48) == Press(e.(line := e.last), seq(|e.line|, _ => 8) + e.last, false)
  {
    assert Backspaces(|e.line|) == seq(|e.line|, _ => 8);
  }

  /** On a line of 255 characters a key with a character does nothing. */
  lemma FullLine(cs: commands, e: Editor, scancode: byte, c: byte)
    requires |e.line| == 255 && KeyOf(e, scancode, c)
    ensures PressKey(cs, e, scancode) == Press(e, [], false)
  {
  }

  /** Tab, without naming how the command is searched: the first command that begins with a non-empty line. */
  lemma TabCompletes(cs: commands, e: Editor, i: nat)
    requires e.line != [] && i < |cs| && e.line <= cs[i] && forall j :: 0 <= j < i ==> !(e.line <= cs[j])
    ensures PressKey(cs, e, 0x0F) == Press(e.(line := cs[i]), cs[i][|e.line|..], false)
  {
  }

  lemma TabDoesNothing(cs: commands, e: Editor)
    requires e.line == [] || forall j :: 0 <= j < |cs| ==> !(e.line <= cs[j])
    ensures PressKey(cs, e, 0x0F) == Press(e, [], false)
  {
    assert e.line[|e.line|..] == [];
  }

  /** Completion extends the line to the first command that has it as a prefix, or leaves it; so it never
      shortens the line, and a second Tab changes and prints nothing. */
  lemma TabIsIdempotent(cs: commands, e: Editor)
    requires Sane(e)
    ensures var p := PressKey(cs, e, TAB_KEY);
      && e.line <= p.editor.line && p.echo == p.editor.line[|e.line|..]
      && (p.editor.line != e.line ==> p.editor.line in cs)
      && PressKey(cs, p.editor, TAB_KEY) == Press(p.editor, [], false)
  {
  }

  lemma KeyKeepsLast(cs: commands, e: Editor, scancode: byte)
    ensures var p := PressKey(cs, e, scancode);
      p.editor.last == if p.submits && e.line != [] then e.line else e.last
  {
    if scancode <= 57 {
      TypeKeepsLast(e, KeyChar(e, scancode));
    }
  }

  lemma TypeKeepsLast(e: Editor, c: ascii)
    ensures Type(e, c).editor.last == if Type(e, c).submits && e.line != [] then e.line else e.last
  {
  }

  /** The remembered line changes only when a non-empty line is submitted. */
  predicate SubmitsNothingNew(cs: commands, e: Editor, keys: seq<byte>)
    decreases |keys|
  {
    keys == [] ||
    ((PressKey(cs, e, keys[0]).submits ==> e.line == [])
     && SubmitsNothingNew(cs, PressKey(cs, e, keys[0]).editor, keys[1..]))
  }

  lemma {:induction false} LastKept(cs: commands, e: Editor, keys: seq<byte>)
    requires SubmitsNothingNew(cs, e, keys)
    ensures Edited(cs, e, keys).last == e.last
    decreases |keys|
  {
    if keys != [] {
      KeyKeepsLast(cs, e, keys[0]);
      LastKept(cs, PressKey(cs, e, keys[0]).editor, keys[1..]);
    }
  }

  /** After a non-empty line is submitted, and any keys that submit no other, the up key brings exactly it back. */
  lemma UpRecallsLine(cs: commands, e: Editor, enter: byte, keys: seq<byte>)
    requires Sane(e) && e.line != [] && PressKey(cs, e, enter).submits
    requires SubmitsNothingNew(cs, PressKey(cs, e, enter).editor, keys)
    ensures var f := Edited(cs, PressKey(cs, e, enter).editor, keys);
      PressKey(cs, f, UP_KEY).editor == f.(line := e.line)
  {
    KeyKeepsLast(cs, e, enter);
    LastKept(cs, PressKey(cs, e, enter).editor, keys);
  }

  // ----- the handler

  /** A key that submits prints a line feed, runs the line, if its command is modelled, and prompts; any other key
      prints its echo and leaves the file system alone. */
  ghost predicate KeyEffect(v: V.Volume, out: seq<message>, line: seq<byte>, p: Press, w: V.Volume, out': seq<message>)
  {
    S.Safe(v) &&
    if !p.submits then w == v && out' == out + Chars(p.echo)
    else IsCString(line) && (Shell.IsModelled(line) ==> LineEffect(v, out + Chars(p.echo), line, w, out'))
  }

  ghost predicate LineEffect(v: V.Volume, out: seq<message>, line: seq<byte>, w: V.Volume, out': seq<message>)
    requires S.Safe(v) && IsCString(line) && Shell.IsModelled(line)
  {
    w == Shell.RunLine(v, line).0 && out' == out + Shell.RunLine(v, line).1 + [Prompt()]
  }

  lemma SubmitEffect(v: V.Volume, out: seq<message>, line: seq<byte>, p: Press, w: V.Volume, out': seq<message>)
    requires Shell.Effect(v, out + [[LINE_FEED]], Shell.Parse(line), w, out') && IsCString(line)
    requires p.submits && p.echo == [LINE_FEED]
    ensures KeyEffect(v, out, line, p, w, out' + [Prompt()])
  {
    assert Chars([LINE_FEED]) == [[LINE_FEED]];
  }

  class LineEditor {
    const shell: Shell.Shell
    const completions: commands
    const keyBuffer: array<byte>
    const lastCommand: array<byte>
    var bufferIndex: nat
    var lastCommandLen: nat
    var shiftPressed: bool
    var capsLocks: bool

    constructor (shell: Shell.Shell, completions: commands)
      ensures Valid() && View() == Editor([], [], false, false)
      ensures this.shell == shell && this.completions == completions && fresh(keyBuffer) && fresh(lastCommand)
    {
      this.shell, this.completions := shell, completions;
      keyBuffer, lastCommand := new byte[256], new byte[256];
      bufferIndex, lastCommandLen, shiftPressed, capsLocks := 0, 0, false, false;
    }

    predicate Valid()
      reads this, keyBuffer, lastCommand
    {
      && keyBuffer.Length == 256 && lastCommand.Length == 256 && keyBuffer != lastCommand
      && bufferIndex <= 255 && lastCommandLen <= 255
      && Sane(View())
    }

    function View(): Editor
      requires bufferIndex <= keyBuffer.Length && lastCommandLen <= lastCommand.Length
      reads this, keyBuffer, lastCommand
    {
      Editor(keyBuffer[..bufferIndex], lastCommand[..lastCommandLen], shiftPressed, capsLocks)
    }

    method PrintChar(c: byte)
      modifies shell.fs.console
      ensures shell.fs.console.out == old(shell.fs.console.out) + [[c]]
    {
      shell.fs.console.Print([c]);
    }

    /** The NUL after the line makes the buffer the C string of the line. */
    method Terminate()
      requires Valid()
      modifies keyBuffer
      ensures Valid() && View() == old(View())
      ensures Terminated(keyBuffer[..], 0) && StringAt(keyBuffer[..], 0) == View().line
    {
      ghost var line := keyBuffer[..bufferIndex];
      keyBuffer[bufferIndex] := 0;
      assert keyBuffer[..bufferIndex] == line;
      StringAtUnique(keyBuffer[..], 0, line);
    }

    method AutocompleteTab()
      requires Valid()
      modifies this, keyBuffer, shell.fs.console
      ensures Valid() && View() == old(View()).(line := Complete(completions, old(View().line)))
      ensures shell.fs.console.out
           == old(shell.fs.console.out) + Chars(Complete(completions, old(View().line))[old(bufferIndex)..])
    {
      if bufferIndex == 0 {
        assert View().line == [];
        return;
      }
      Terminate();
      ghost var line := View().line;
      var i := 0;
      while i < |completions|
        invariant i <= |completions| && FirstCompletion(completions, line, 0) == FirstCompletion(completions, line, i)
        invariant Valid() && View() == old(View()) && shell.fs.console.out == old(shell.fs.console.out)
        invariant Terminated(keyBuffer[..], 0) && StringAt(keyBuffer[..], 0) == line
      {
        TypeableIsCString(line);
        TypeableIsCString(completions[i]);
        CompareNPrefix(line, completions[i], 0);
        var r := StrNCmp(keyBuffer, completions[i], bufferIndex);
        if r == 0 {
          AppendRest(completions[i]);
          return;
        }
        i := i + 1;
      }
      assert Complete(completions, line) == line && line[bufferIndex..] == [];
    }

    method AppendRest(command: seq<byte>)
      requires Valid() && View().line <= command && Typeable(command) && |command| <= 255
      modifies this, keyBuffer, shell.fs.console
      ensures Valid() && View() == old(View()).(line := command)
      ensures shell.fs.console.out == old(shell.fs.console.out) + Chars(command[old(bufferIndex)..])
    {
      var missing := |command| - bufferIndex;
      ghost var start, out := bufferIndex, shell.fs.console.out;
      for j := 0 to missing
        invariant bufferIndex == start + j && keyBuffer[..bufferIndex] == command[..bufferIndex]
        invariant lastCommandLen == old(lastCommandLen)
        invariant shiftPressed == old(shiftPressed) && capsLocks == old(capsLocks)
        invariant shell.fs.console.out == out + Chars(command[start..bufferIndex])
      {
        var letter := command[bufferIndex];
        keyBuffer[bufferIndex] := letter;
        bufferIndex := bufferIndex + 1;
        PrintChar(letter);
      }
    }

    method RecallLast()
      requires Valid() && lastCommandLen > 0
      modifies this, keyBuffer, shell.fs.console
      ensures Valid() && View() == old(View()).(line := old(View().last))
      ensures shell.fs.console.out == old(shell.fs.console.out)
        + Chars(Backspaces(|old(View().line)|) + old(View().last))
    {
      ghost var out, n, last := shell.fs.console.out, bufferIndex, View().last;
      EraseLine();
      CopyLast();
      CharsConcat(Backspaces(n), last);
      MessagesAssociate(out, Chars(Backspaces(n)), Chars(last));
    }

    method EraseLine()
      requires Valid()
      modifies this`bufferIndex, shell.fs.console
      ensures Valid() && View() == old(View()).(line := [])
      ensures shell.fs.console.out == old(shell.fs.console.out) + Chars(Backspaces(old(bufferIndex)))
    {
      ghost var n := bufferIndex;
      while bufferIndex > 0
        invariant bufferIndex <= n
        invariant shell.fs.console.out == old(shell.fs.console.out) + Chars(Backspaces(n - bufferIndex))
      {
        PrintChar(BACKSPACE);
        bufferIndex := bufferIndex - 1;
      }
    }

    method CopyLast()
      requires Valid() && bufferIndex == 0
      modifies this`bufferIndex, keyBuffer, shell.fs.console
      ensures Valid() && View() == old(View()).(line := old(View().last))
      ensures shell.fs.console.out == old(shell.fs.console.out) + Chars(old(View().last))
    {
      ghost var last := View().last;
      for i := 0 to lastCommandLen
        invariant forall o :: 0 <= o < i ==> keyBuffer[o] == lastCommand[o]
        invariant shell.fs.console.out == old(shell.fs.console.out) + Chars(last[..i])
      {
        keyBuffer[i] := lastCommand[i];
        PrintChar(keyBuffer[i]);
      }
      bufferIndex := lastCommandLen;
      keyBuffer[bufferIndex] := 0;
      assert keyBuffer[..bufferIndex] == last && last[..|last|] == last;
    }

    /** Enter: terminate, remember, run, and start a new line. */
    method Submit()
      requires Valid() && S.Safe(shell.fs.State())
      modifies this, keyBuffer, lastCommand, shell.tokens, shell.fs, shell.fs.disk, shell.fs.console
      ensures Valid() && View() == old(Type(View(), LINE_FEED).editor)
      ensures KeyEffect(old(shell.fs.State()), old(shell.fs.console.out), old(View().line),
                        old(Type(View(), LINE_FEED)), shell.fs.State(), shell.fs.console.out)
    {
      ghost var v, out, line, p := shell.fs.State(), shell.fs.console.out, View().line, Type(View(), LINE_FEED);
      TypeableIsCString(line);
      PrintChar(LINE_FEED);
      Terminate();
      RememberLine();
      RunSubmitted(v, out, line, p);
      keyBuffer[0] := 0;
      bufferIndex := 0;
    }

    method RunSubmitted(ghost v: V.Volume, ghost out: seq<message>, ghost line: seq<byte>, ghost p: Press)
      requires Valid() && Terminated(keyBuffer[..], 0) && StringAt(keyBuffer[..], 0) == line
      requires S.Safe(v) && shell.fs.State() == v && shell.fs.console.out == out + [[LINE_FEED]]
      requires p.submits && p.echo == [LINE_FEED] && IsCString(line)
      modifies keyBuffer, shell.tokens, shell.fs, shell.fs.disk, shell.fs.console
      ensures KeyEffect(v, out, line, p, shell.fs.State(), shell.fs.console.out)
    {
      shell.Execute(keyBuffer);
      SubmitEffect(v, out, line, p, shell.fs.State(), shell.fs.console.out);
      shell.fs.console.Print(Prompt());
    }

    method RememberLine()
      requires Valid()
      modifies this`lastCommandLen, lastCommand
      ensures Valid()
      ensures View() == old(View()).(last := if old(View().line) == [] then old(View().last) else old(View().line))
    {
      if bufferIndex > 0 {
        for i := 0 to bufferIndex + 1
          invariant forall o :: 0 <= o < i ==> lastCommand[o] == keyBuffer[o]
        {
          lastCommand[i] := keyBuffer[i];
        }
        lastCommandLen := bufferIndex;
        assert lastCommand[..lastCommandLen] == keyBuffer[..bufferIndex];
      }
    }

    method HandleChar(c: ascii)
      requires Valid() && c != LINE_FEED
      modifies this`bufferIndex, keyBuffer, shell.fs.console
      ensures Valid() && View() == Type(old(View()), c).editor
      ensures shell.fs.console.out == old(shell.fs.console.out) + Chars(Type(old(View()), c).echo)
    {
      ghost var line := View().line;
      if c == BACKSPACE {
        if bufferIndex > 0 {
          bufferIndex := bufferIndex - 1;
          keyBuffer[bufferIndex] := 0;
          PrintChar(BACKSPACE);
          assert View().line == line[..|line| - 1];
        }
      } else if c != 0 {
        if bufferIndex < 255 {
          keyBuffer[bufferIndex] := c;
          bufferIndex := bufferIndex + 1;
          PrintChar(c);
          assert View().line == line + [c];
        }
      }
    }

    /** What the interrupt does with a character. */
    method HandleFinal(finalChar: ascii)
      requires Valid() && S.Safe(shell.fs.State())
      modifies this, keyBuffer, lastCommand, shell.tokens, shell.fs, shell.fs.disk, shell.fs.console
      ensures Valid() && View() == old(Type(View(), finalChar).editor)
      ensures KeyEffect(old(shell.fs.State()), old(shell.fs.console.out), old(View().line),
                        old(Type(View(), finalChar)), shell.fs.State(), shell.fs.console.out)
    {
      if finalChar == LINE_FEED {
        Submit();
      } else {
        HandleChar(finalChar);
      }
    }

    /** The keyboard interrupt, for the scancode read from the port. */
    method HandleKey(scancode: byte)
      requires Valid() && S.Safe(shell.fs.State())
      modifies this, keyBuffer, lastCommand, shell.tokens, shell.fs, shell.fs.disk, shell.fs.console
      ensures Valid() && View() == old(PressKey(completions, View(), scancode).editor)
      ensures KeyEffect(old(shell.fs.State()), old(shell.fs.console.out), old(View().line),
                        old(PressKey(completions, View(), scancode)), shell.fs.State(), shell.fs.console.out)
    {
      if scancode == 0x0F {
        AutocompleteTab();
      } else if scancode == 0x48 && lastCommandLen > 0 {
        RecallLast();
      } else if scancode == 0x2A || scancode == 0x36 {
        shiftPressed := true;
      } else if scancode == 0xAA || scancode == 0xB6 {
        shiftPressed := false;
      } else if scancode == 0x3A {
        capsLocks := !capsLocks;
      } else if scancode <= 57 {
        HandleFinal(KeyChar(View(), scancode));
      }
    }
  }
}
