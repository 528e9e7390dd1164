/** What the command lines mean, word for word: every line is named by the text that is typed. */
module Commands {
  import opened Bytes
  import opened Strings
  import opened Shell
  import V = Volume

  // ----- the lines

  /** A word, a blank and a text. */
  function Line(word: string, args: seq<byte>): seq<byte> {
    Ascii(word) + [32] + args
  }

  function WriteLine(name: seq<byte>, ext: seq<byte>, content: seq<byte>): seq<byte> {
    Line("write", name + [32] + (ext + [32] + content))
  }

  function CatLine(args: seq<byte>): seq<byte> {
    Line("cat", args)
  }

  lemma CutAtBlank(h: seq<byte>, t: seq<byte>)
    requires 32 !in h
    ensures Head(h + [32] + t, 32) == h && Tail(h + [32] + t, 32) == t
    ensures Head(h, 32) == h && Tail(h, 32) == []
  {
    var s := h + [32] + t;
    PositionUnique(s, 32, |h|);
    PositionUnique(h, 32, |h|);
  }

  // ----- the search for the handler

  lemma {:induction false} SkipsOthers(name: seq<byte>, i: nat)
    requires i <= NUM_COMMANDS && forall j: nat :: j < i ==> Ascii(CommandName(j)) != name
    ensures NoneEarlier(name, i)
    decreases i
  {
    if i > 0 {
      SkipsOthers(name, i - 1);
      assert Ascii(CommandName(i - 1)) != name;
    }
  }

  /** The first command of a name is the one that runs. */
  lemma Reaches(name: seq<byte>, i: nat)
    requires i < NUM_COMMANDS && Ascii(CommandName(i)) == name
    requires forall j: nat :: j < i ==> Ascii(CommandName(j)) != name
    ensures Lookup(name, 0) == i
  {
    SkipsOthers(name, i);
    LookupIs(name, 0, i);
  }

  /** Two constants of different length, or with different characters in one place, are different names. */
  lemma Differ(s: string, t: string, k: nat)
    requires |s| != |t| || (k < |s| && s[k] as int % 0x100 != t[k] as int % 0x100)
    ensures Ascii(s) != Ascii(t)
  {
    if |s| == |t| {
      assert Ascii(s)[k] != Ascii(t)[k];
    }
  }

  /** The text is the name of command i and of no other. */
  predicate Names(word: string, i: nat) {
    && i < NUM_COMMANDS && Ascii(CommandName(i)) == Ascii(word)
    && forall j: nat :: j < NUM_COMMANDS && j != i ==> Ascii(CommandName(j)) != Ascii(word)
  }

  lemma EchoName()
    ensures Names("echo", ECHO)
  {
    forall j: nat | j < NUM_COMMANDS && j != ECHO
      ensures Ascii(CommandName(j)) != Ascii("echo")
    {
      Differ(CommandName(j), "echo", 0);
    }
  }

  lemma WriteName()
    ensures Names("write", WRITE)
  {
    forall j: nat | j < NUM_COMMANDS && j != WRITE
      ensures Ascii(CommandName(j)) != Ascii("write")
    {
      Differ(CommandName(j), "write", 0);
    }
  }

  lemma MkdirName()
    ensures Names("mkdir", MKDIR)
  {
    forall j: nat | j < NUM_COMMANDS && j != MKDIR
      ensures Ascii(CommandName(j)) != Ascii("mkdir")
    {
      Differ(CommandName(j), "mkdir", if j == MKAPP then 2 else 0);
    }
  }

  lemma CdName()
    ensures Names("cd", CD)
  {
    forall j: nat | j < NUM_COMMANDS && j != CD
      ensures Ascii(CommandName(j)) != Ascii("cd")
    {
      Differ(CommandName(j), "cd", 0);
    }
  }

  lemma CatName()
    ensures Names("cat", CAT)
  {
    forall j: nat | j < NUM_COMMANDS && j != CAT
      ensures Ascii(CommandName(j)) != Ascii("cat")
    {
      Differ(CommandName(j), "cat", 0);
    }
  }

  lemma RmName()
    ensures Names("rm", RM)
  {
    forall j: nat | j < NUM_COMMANDS && j != RM
      ensures Ascii(CommandName(j)) != Ascii("rm")
    {
      Differ(CommandName(j), "rm", 0);
    }
  }

  lemma MkappName()
    ensures Names("mkapp", MKAPP)
  {
    forall j: nat | j < NUM_COMMANDS && j != MKAPP
      ensures Ascii(CommandName(j)) != Ascii("mkapp")
    {
      Differ(CommandName(j), "mkapp", if j == MKDIR then 2 else 0);
    }
  }

  /** A line of a command, with arguments or without. */
  lemma ParseNamed(word: string, i: nat, args: seq<byte>)
    requires Names(word, i) && word != "" && 32 !in Ascii(word)
    ensures Parse(Line(word, args)) == Interpret(i, args) && Parse(Ascii(word)) == Interpret(i, [])
  {
    Reaches(Ascii(word), i);
    CutAtBlank(Ascii(word), args);
  }

  // ----- what the lines mean

  /** echo takes the words up to every blank. */
  lemma ParseEcho(args: seq<byte>)
    ensures Parse(Line("echo", args)) == Echo(TokensOf(args, 32)) && Parse(Ascii("echo")) == Echo([])
  {
    EchoName();
    ParseNamed("echo", ECHO, args);
  }

  lemma ParseMkdir(args: seq<byte>)
    ensures args != [] ==> Parse(Line("mkdir", args)) == Call(V.Mkdir(Head(args, 32)))
    ensures Parse(Line("mkdir", [])) == Parse(Ascii("mkdir")) == Missing(MKDIR)
  {
    MkdirName();
    ParseNamed("mkdir", MKDIR, args);
    ParseNamed("mkdir", MKDIR, []);
  }

  lemma ParseCd(args: seq<byte>)
    ensures args != [] ==> Parse(Line("cd", args)) == Call(V.Cd(Head(args, 32)))
    ensures Parse(Line("cd", [])) == Parse(Ascii("cd")) == Missing(CD)
  {
    CdName();
    ParseNamed("cd", CD, args);
    ParseNamed("cd", CD, []);
  }

  /** `cat` and a blank followed by nothing is a call without an argument; otherwise the argument is the text up
      to the next blank, which may be empty. */
  lemma ParseCat(args: seq<byte>)
    ensures args != [] ==> Parse(Line("cat", args)) == Call(V.Cat(Head(args, 32)))
    ensures Parse(Line("cat", [])) == Parse(Ascii("cat")) == Missing(CAT)
  {
    CatName();
    ParseNamed("cat", CAT, args);
    ParseNamed("cat", CAT, []);
  }

  lemma ParseRm(args: seq<byte>)
    ensures args != [] ==> Parse(Line("rm", args)) == Call(V.Rm(Head(args, 32)))
    ensures Parse(Line("rm", [])) == Parse(Ascii("rm")) == Missing(RM)
  {
    RmName();
    ParseNamed("rm", RM, args);
    ParseNamed("rm", RM, []);
  }

  /** mkapp writes its program, whatever its arguments. */
  lemma ParseMkapp(args: seq<byte>)
    ensures Parse(Line("mkapp", args)) == Parse(Ascii("mkapp"))
         == Install(V.Write(Ascii("APP     BIN"), [0xCD, 0x80, 0xEB, 0xFE]))
  {
    MkappName();
    ParseNamed("mkapp", MKAPP, args);
  }

  /** The name cut or padded with blanks to 8 characters, and the extension to 3. */
  predicate IsFatName(name: seq<byte>, ext: seq<byte>, padded: seq<byte>) {
    |padded| == 11 && forall i :: 0 <= i < 11 ==>
      padded[i] == if i < 8 then if i < |name| then name[i] else 32 else if i - 8 < |ext| then ext[i - 8] else 32
  }

  lemma FatNameIs(name: seq<byte>, ext: seq<byte>, padded: seq<byte>)
    requires IsFatName(name, ext, padded)
    ensures FatName(name, ext) == padded
  {
    forall i | 0 <= i < 11
      ensures FatName(name, ext)[i] == padded[i]
    {
    }
  }

  /** Two words and the rest of the line, blanks included, are the name, the extension and the content. */
  lemma ParseWrite(name: seq<byte>, ext: seq<byte>, content: seq<byte>)
    requires 32 !in name && 32 !in ext && content != []
    ensures Parse(WriteLine(name, ext, content)) == Call(V.Write(FatName(name, ext), content))
  {
    WriteName();
    var rest := ext + [32] + content;
    ParseNamed("write", WRITE, name + [32] + rest);
    CutAtBlank(name, rest);
    CutAtBlank(ext, content);
  }

  lemma ParseWritePadded(name: seq<byte>, ext: seq<byte>, content: seq<byte>, padded: seq<byte>)
    requires 32 !in name && 32 !in ext && content != [] && IsFatName(name, ext, padded)
    ensures Parse(WriteLine(name, ext, content)) == Call(V.Write(padded, content))
  {
    ParseWrite(name, ext, content);
    FatNameIs(name, ext, padded);
  }

  /** A line without a content: nothing, a name, or a name and an extension, each with a blank behind it or not. */
  lemma ParseWriteMissing(name: seq<byte>, ext: seq<byte>)
    requires 32 !in name && 32 !in ext
    ensures Parse(Ascii("write")) == Parse(Line("write", [])) == Missing(WRITE)
    ensures Parse(Line("write", name)) == Parse(Line("write", name + [32])) == Missing(WRITE)
    ensures Parse(Line("write", name + [32] + ext)) == Missing(WRITE)
    ensures Parse(Line("write", name + [32] + (ext + [32]))) == Missing(WRITE)
  {
    WriteName();
    ParseNamed("write", WRITE, []);
    ParseNamed("write", WRITE, name);
    ParseNamed("write", WRITE, name + [32]);
    ParseNamed("write", WRITE, name + [32] + ext);
    ParseNamed("write", WRITE, name + [32] + (ext + [32]));
    CutAtBlank(name, []);
    CutAtBlank(name, ext);
    CutAtBlank(name, ext + [32]);
    CutAtBlank(ext, []);
    assert name + [32] + [] == name + [32] && ext + [32] + [] == ext + [32];
  }

  // ----- every other first word

  /** The commands whose handlers are not modelled. */
  function OtherNames(): seq<string> {
    ["help", "color", "read", "math", "draw", "fsinfo", "ls", "mkdummy", "crash", "clear", "beep", "sleep", "cpuinfo",
     "uptime", "time", "alloc", "lspci", "run", "kmsg", "hack", "netinit"]
  }

  function OtherPlaces(): seq<nat> {
    [0, 2, 3, 4, 6, 7, 8, 9, 13, 14, 15, 16, 17, 18, 19, 20, 21, 23, 25, 26, 27]
  }

  predicate IsOtherName(word: seq<byte>) {
    exists k :: 0 <= k < |OtherNames()| && Ascii(OtherNames()[k]) == word
  }

  predicate IsModelledName(word: seq<byte>) {
    word in [Ascii("echo"), Ascii("write"), Ascii("mkdir"), Ascii("cd"), Ascii("cat"), Ascii("rm"), Ascii("mkapp")]
  }

  predicate HasHandler(i: nat) {
    i == ECHO || i == WRITE || i == MKDIR || i == CD || i == CAT || i == RM || i == MKAPP
  }

  lemma ModelledNames(i: nat)
    requires i < NUM_COMMANDS
    ensures IsModelledName(Ascii(CommandName(i))) <==> HasHandler(i)
  {
    EchoName();
    WriteName();
    MkdirName();
    CdName();
    CatName();
    RmName();
    MkappName();
  }

  lemma OtherPlace(k: nat)
    requires k < 21
    ensures |OtherNames()| == |OtherPlaces()| == 21
    ensures OtherPlaces()[k] < NUM_COMMANDS && CommandName(OtherPlaces()[k]) == OtherNames()[k]
    ensures !HasHandler(OtherPlaces()[k])
  {
  }

  lemma OtherPlaceOf(i: nat) returns (k: nat)
    requires i < NUM_COMMANDS && !HasHandler(i)
    ensures k < 21 && OtherPlaces()[k] == i
  {
    k := if i == 0 then 0 else if i < 5 then i - 1 else if i < 10 then i - 2 else if i < 22 then i - 5
      else if i == 23 then 17 else i - 7;
  }

  lemma {:induction false} LookupFinds(name: seq<byte>, i: nat)
    requires i <= NUM_COMMANDS && Lookup(name, i) < NUM_COMMANDS
    ensures Ascii(CommandName(Lookup(name, i))) == name
    decreases NUM_COMMANDS - i
  {
    if Lookup(name, i) != i {
      LookupFinds(name, i + 1);
    }
  }

  lemma {:induction false} LookupStops(name: seq<byte>, i: nat, j: nat)
    requires i <= j < NUM_COMMANDS && Ascii(CommandName(j)) == name
    ensures Lookup(name, i) <= j
    decreases j - i
  {
    if i < j {
      LookupStops(name, i + 1, j);
    }
  }

  lemma ModelledPlace(word: seq<byte>) returns (i: nat)
    requires IsModelledName(word)
    ensures i < NUM_COMMANDS && Ascii(CommandName(i)) == word
  {
    i := if word == Ascii("echo") then ECHO else if word == Ascii("write") then WRITE
      else if word == Ascii("mkdir") then MKDIR else if word == Ascii("cd") then CD
      else if word == Ascii("cat") then CAT else if word == Ascii("rm") then RM else MKAPP;
  }

  /** What kind of name the command found has. */
  lemma FoundName(word: seq<byte>, i: nat)
    requires i < NUM_COMMANDS && Ascii(CommandName(i)) == word
    ensures IsModelledName(word) <==> HasHandler(i)
    ensures IsOtherName(word) <==> !HasHandler(i)
  {
    ModelledNames(i);
    if IsOtherName(word) {
      var k :| 0 <= k < |OtherNames()| && Ascii(OtherNames()[k]) == word;
      OtherPlace(k);
      ModelledNames(OtherPlaces()[k]);
    } else if !HasHandler(i) {
      var k := OtherPlaceOf(i);
      OtherPlace(k);
    }
  }

  /** A word that the search does not find has neither kind of name. */
  lemma NotFoundName(word: seq<byte>)
    requires Lookup(word, 0) == NUM_COMMANDS
    ensures !IsModelledName(word) && !IsOtherName(word)
  {
    if IsModelledName(word) {
      var i := ModelledPlace(word);
      LookupStops(word, 0, i);
    } else if IsOtherName(word) {
      var k :| 0 <= k < |OtherNames()| && Ascii(OtherNames()[k]) == word;
      OtherPlace(k);
      LookupStops(word, 0, OtherPlaces()[k]);
    }
  }

  lemma InterpretKind(i: nat, args: seq<byte>)
    ensures Interpret(i, args).Other? <==> !HasHandler(i)
    ensures !Interpret(i, args).Unknown?
  {
  }

  /** Which first words are commands at all, and which of them are modelled. */
  lemma FirstWord(line: seq<byte>)
    requires line != []
    ensures Parse(line).Other? <==> IsOtherName(Head(line, 32))
    ensures Parse(line) == Unknown(Head(line, 32)) <==> !IsOtherName(Head(line, 32)) && !IsModelledName(Head(line, 32))
  {
    var word := Head(line, 32);
    var i := Lookup(word, 0);
    if i < NUM_COMMANDS {
      LookupFinds(word, 0);
      FoundName(word, i);
      InterpretKind(i, Tail(line, 32));
    } else {
      NotFoundName(word);
    }
  }
}
