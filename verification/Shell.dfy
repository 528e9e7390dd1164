/** The command interpreter: what a line means, and the code that cuts it up and runs it. */
module Shell {
  import opened Bytes
  import opened Strings
  import V = Volume
  import T = Tree
  import C = Chains
  import L = Layout
  import S = Simulation
  import Fat16

  const BLANK: byte := ' ' as int

  const NUM_COMMANDS := 28

  /** The command table, in the order it is searched. */
  function CommandName(i: nat): string
    requires i < NUM_COMMANDS
  {
    if i == 0 then "help"
    else if i == 1 then "echo"
    else if i == 2 then "color"
    else if i == 3 then "read"
    else if i == 4 then "math"
    else if i == 5 then "write"
    else if i == 6 then "draw"
    else if i == 7 then "fsinfo"
    else if i == 8 then "ls"
    else if i == 9 then "mkdummy"
    else if i == 10 then "mkdir"
    else if i == 11 then "cd"
    else if i == 12 then "cat"
    else if i == 13 then "crash"
    else if i == 14 then "clear"
    else if i == 15 then "beep"
    else if i == 16 then "sleep"
    else if i == 17 then "cpuinfo"
    else if i == 18 then "uptime"
    else if i == 19 then "time"
    else if i == 20 then "alloc"
    else if i == 21 then "lspci"
    else if i == 22 then "rm"
    else if i == 23 then "run"
    else if i == 24 then "mkapp"
    else if i == 25 then "kmsg"
    else if i == 26 then "hack"
    else "netinit"
  }

  const ECHO := 1
  const WRITE := 5
  const MKDIR := 10
  const CD := 11
  const CAT := 12
  const RM := 22
  const MKAPP := 24

  // ----- what a line means

  datatype Action =
    | Nothing
    | Unknown(command: seq<byte>)
    | Echo(tokens: seq<seq<byte>>)
    | Call(call: V.Command)
    | Install(call: V.Command)
    | Missing(index: nat)
    | Other(index: nat)

  /** The first command of the table from i on with this name, or the length of the table. */
  function Lookup(name: seq<byte>, i: nat): (r: nat)
    requires i <= NUM_COMMANDS
    ensures i <= r <= NUM_COMMANDS
    decreases NUM_COMMANDS - i
  {
    if i == NUM_COMMANDS || Ascii(CommandName(i)) == name then i else Lookup(name, i + 1)
  }

  /** None of the first j commands has this name. */
  predicate NoneEarlier(name: seq<byte>, j: nat)
    requires j <= NUM_COMMANDS
  {
    j > 0 ==> NoneEarlier(name, j - 1) && Ascii(CommandName(j - 1)) != name
  }

  lemma {:induction false} LookupIs(name: seq<byte>, i: nat, j: nat)
    requires i <= j <= NUM_COMMANDS && NoneEarlier(name, j)
    ensures Lookup(name, i) == Lookup(name, j)
    decreases j
  {
    if i < j {
      LookupIs(name, i, j - 1);
    }
  }

  const APP_CODE: seq<byte> := [0xCD, 0x80, 0xEB, 0xFE]

  function AppName(): (r: seq<byte>)
    ensures |r| == 11
  {
    Ascii("APP     BIN")
  }

  /** The program that mkapp writes. */
  function AppCall(): V.Command {
    V.Write(AppName(), APP_CODE)
  }

  function AppInstalled(): message {
    Ascii("Program compiled and installed as APP.BIN\n")
  }

  /** The 8 + 3 characters that write makes of its first two arguments. */
  function FatName(name: seq<byte>, ext: seq<byte>): (r: seq<byte>)
    ensures |r| == 11
  {
    Pad(name, 8) + Pad(ext, 3)
  }

  /** The call that mkdir, cd, cat or rm makes with its argument. */
  function CallWith(index: nat, arg: seq<byte>): V.Command {
    if index == MKDIR then V.Mkdir(arg)
    else if index == CD then V.Cd(arg)
    else if index == CAT then V.Cat(arg)
    else V.Rm(arg)
  }

  function Interpret(index: nat, args: seq<byte>): Action {
    if index == ECHO then Echo(TokensOf(args, BLANK))
    else if index == WRITE then
      var afterName := Tail(args, BLANK);
      var content := Tail(afterName, BLANK);
      if args == [] || afterName == [] || content == [] then Missing(index)
      else Call(V.Write(FatName(Head(args, BLANK), Head(afterName, BLANK)), content))
    else if index == MKDIR || index == CD || index == CAT || index == RM then
      if args == [] then Missing(index) else Call(CallWith(index, Head(args, BLANK)))
    else if index == MKAPP then Install(AppCall())
    else Other(index)
  }

  function Parse(line: seq<byte>): Action {
    if line == [] then Nothing
    else
      var index := Lookup(Head(line, BLANK), 0);
      if index == NUM_COMMANDS then Unknown(Head(line, BLANK)) else Interpret(index, Tail(line, BLANK))
  }

  /** The call of an action, if it makes one, has proper arguments. */
  predicate IsProper(action: Action) {
    action.Call? || action.Install? ==> V.Proper(action.call)
  }

  lemma PadIsCString(s: seq<byte>, n: nat)
    requires IsCString(s)
    ensures IsCString(Pad(s, n))
  {
  }

  lemma CommandsAreCStrings(i: nat)
    requires i < NUM_COMMANDS
    ensures IsCString(Ascii(CommandName(i)))
  {
    forall j | 0 <= j < |CommandName(i)|
      ensures CommandName(i)[j] as int % 0x100 != 0
    {
    }
  }

  lemma AppNameIsCString()
    ensures IsCString(AppName())
  {
  }

  lemma InterpretWrite(args: seq<byte>)
    ensures var afterName := Tail(args, BLANK); var content := Tail(afterName, BLANK);
      Interpret(WRITE, args) == if args == [] || afterName == [] || content == [] then Missing(WRITE)
        else Call(V.Write(FatName(Head(args, BLANK), Head(afterName, BLANK)), content))
  {
  }

  lemma InterpretOne(index: nat, args: seq<byte>)
    requires index == MKDIR || index == CD || index == CAT || index == RM
    ensures Interpret(index, args) == if args == [] then Missing(index) else Call(CallWith(index, Head(args, BLANK)))
  {
  }

  lemma InterpretIsProper(index: nat, args: seq<byte>)
    requires IsCString(args)
    ensures IsProper(Interpret(index, args))
  {
    AppNameIsCString();
    PartsAreCStrings(args, BLANK);
    PartsAreCStrings(Tail(args, BLANK), BLANK);
    PadIsCString(Head(args, BLANK), 8);
    PadIsCString(Head(Tail(args, BLANK), BLANK), 3);
  }

  /** The interpreter passes only proper names and contents to the file system. */
  lemma ParseIsProper(line: seq<byte>)
    requires IsCString(line)
    ensures IsProper(Parse(line))
  {
    PartsAreCStrings(line, BLANK);
    InterpretIsProper(Lookup(Head(line, BLANK), 0), Tail(line, BLANK));
  }

  function UnknownCommand(command: seq<byte>): seq<message> {
    [Ascii("unknow command: "), command, V.NEWLINE]
  }

  /** echo prints every token and a blank. */
  function EchoMessages(tokens: seq<seq<byte>>): seq<message> {
    if tokens == [] then [] else [tokens[0], [BLANK]] + EchoMessages(tokens[1..])
  }

  function Usage(index: nat): message {
    if index == WRITE then Ascii("Error: missing args\n- use: write [name(8)] [EXT(8)] [text...]\n")
    else if index == MKDIR then Ascii("Error of sintax.\n- use: mkdir [name]\n")
    else if index == CD then Ascii("Error of sintax\n- use: cd [dirname]\n")
    else if index == CAT then Ascii("Error: missing args\n- use: cat [filename]\n")
    else Ascii("Error: missing args.\nUse: rm [name]\n")
  }

  /** The handlers of the other commands are not part of this model. */
  predicate IsModelled(line: seq<byte>) {
    !Parse(line).Other?
  }

  /** What a line does to the disk and the current directory, and what it prints. */
  ghost function Perform(v: V.Volume, action: Action): (r: (V.Volume, seq<message>))
    requires S.Safe(v) && IsProper(action) && !action.Other?
    ensures S.Safe(r.0)
  {
    match action
    case Nothing => (v, [])
    case Unknown(command) => (v, UnknownCommand(command))
    case Echo(tokens) => (v, EchoMessages(tokens) + [V.NEWLINE])
    case Call(call) =>
      S.StepKeepsSafe(v, call);
      (V.Next(v, call), V.Messages(call, S.Answer(v, call)))
    case Install(call) =>
      S.StepKeepsSafe(v, call);
      (V.Next(v, call), V.Messages(call, S.Answer(v, call)) + [AppInstalled()])
    case Missing(index) => (v, [Usage(index)])
  }

  /** On a safe disk every call can be answered: the walks of cat and rm end, and cd stays inside the table. */
  lemma SafeCall(v: V.Volume, c: V.Command)
    requires S.Safe(v) && V.Proper(c)
    ensures c.Cat? ==> V.CatEnds(v, c.name)
    ensures c.Rm? && V.Find(v, c.name).Some? ==>
      C.Confined(T.Table(v.disk), L.EntryAt(v.Directory(), V.Find(v, c.name).value).cluster)
    ensures c.Cd? ==> V.ChangeDirectory(v, c.name).0.Valid()
  {
    var a := S.SafeRepresents(v);
    S.NamedAgrees(v, a, c.name);
    if c.Cd? {
      S.ChangeAgrees(v, a, c.name);
    } else if c.Cat? {
      S.CatAgrees(v, a, c.name);
    } else if V.Find(v, c.name).Some? {
      C.ChainReached(T.Table(v.disk), L.EntryAt(v.Directory(), V.Find(v, c.name).value).cluster);
    }
  }

  ghost function RunLine(v: V.Volume, line: seq<byte>): (r: (V.Volume, seq<message>))
    requires S.Safe(v) && IsCString(line) && IsModelled(line)
    ensures S.Safe(r.0)
  {
    ParseIsProper(line);
    Perform(v, Parse(line))
  }

  lemma FlatStart(a: message, b: message, rest: seq<message>)
    ensures Flat([a, b] + rest) == a + b + Flat(rest)
  {
    FlatStep(a, [b] + rest);
    FlatStep(b, rest);
    assert [a, b] + rest == [a] + ([b] + rest);
    Associate(a, b, Flat(rest));
  }

  lemma {:induction false} FlatEcho(tokens: seq<seq<byte>>)
    ensures Flat(EchoMessages(tokens) + [V.NEWLINE]) == Glue(tokens, BLANK) + V.NEWLINE
  {
    if tokens == [] {
      FlatStep(V.NEWLINE, []);
    } else {
      var rest := EchoMessages(tokens[1..]) + [V.NEWLINE];
      FlatEcho(tokens[1..]);
      FlatStart(tokens[0], [BLANK], rest);
      MessagesAssociate([tokens[0], [BLANK]], EchoMessages(tokens[1..]), [V.NEWLINE]);
      AssociateTwice(tokens[0], [BLANK], Glue(tokens[1..], BLANK), V.NEWLINE);
    }
  }

  /** echo prints its arguments as they were typed, with a blank after a last one that lacks it. */
  lemma EchoSays(v: V.Volume, args: seq<byte>)
    requires S.Safe(v)
    ensures Perform(v, Interpret(ECHO, args)).0 == v
    ensures Flat(Perform(v, Interpret(ECHO, args)).1) == Closed(args, BLANK) + V.NEWLINE
  {
    FlatEcho(TokensOf(args, BLANK));
    JoinTokens(args, BLANK);
  }

  // ----- the code

  /** A string that ends before a change is not changed by it. */
  lemma StringKept(s: seq<byte>, u: seq<byte>, q: nat, p: nat)
    requires q <= p <= |s| == |u| && s[..p] == u[..p] && q + |StringAt(s, q)| < p
    ensures Terminated(u, q) && StringAt(u, q) == StringAt(s, q)
  {
    var t := StringAt(s, q);
    assert forall i :: 0 <= i < p ==> s[i] == s[..p][i] == u[..p][i] == u[i];
    StringAtUnique(u, q, t);
  }

  /** s with every d from position p to e replaced by a NUL. */
  function Blanked(s: seq<byte>, p: int, e: int, d: byte): seq<byte> {
    seq(|s|, i requires 0 <= i < |s| => if p <= i < e && s[i] == d then 0 else s[i])
  }

  lemma EchoStep(done: seq<message>, r: seq<byte>)
    requires r != []
    ensures done + [Head(r, BLANK)] + [[BLANK]] + EchoMessages(TokensOf(Tail(r, BLANK), BLANK))
         == done + EchoMessages(TokensOf(r, BLANK))
  {
    assert TokensOf(r, BLANK)[1..] == TokensOf(Tail(r, BLANK), BLANK);
    MessagesAssociateTwice(done, [Head(r, BLANK)], [[BLANK]], EchoMessages(TokensOf(Tail(r, BLANK), BLANK)));
  }

  lemma AllSaid(out: seq<message>, goal: seq<message>)
    requires out + EchoMessages(TokensOf([], BLANK)) == goal
    ensures out == goal
  {
  }

  lemma BlankedCut(s: seq<byte>, p: nat, d: byte)
    requires Terminated(s, p) && d != 0
    ensures CutAt(s, p, d).text == Blanked(s, p, CutAt(s, p, d).cursor, d)
  {
  }

  lemma BlankedTwice(s: seq<byte>, p: int, e: int, f: int, d: byte)
    requires p <= e <= f && d != 0
    ensures Blanked(Blanked(s, p, e, d), e, f, d) == Blanked(s, p, f, d)
  {
  }

  lemma CallEffect(v: V.Volume, out: seq<message>, c: V.Command)
    requires S.Safe(v) && V.Proper(c)
    ensures Effect(v, out, Call(c), V.Next(v, c), out + V.Messages(c, S.Answer(v, c)))
  {
  }

  lemma MissingEffect(v: V.Volume, out: seq<message>, index: nat)
    requires S.Safe(v)
    ensures Effect(v, out, Missing(index), v, out + [Usage(index)])
  {
  }

  lemma AppEffect(v: V.Volume, out: seq<message>, c: V.Command)
    requires S.Safe(v) && V.Proper(c)
    ensures Effect(v, out, Install(c), V.Next(v, c), out + (V.Messages(c, S.Answer(v, c)) + [AppInstalled()]))
  {
  }

  class Shell {
    const fs: Fat16.FileSystem
    const tokens: Tokenizer

    constructor (fs: Fat16.FileSystem)
      ensures this.fs == fs && fresh(tokens)
    {
      this.fs := fs;
      tokens := new Tokenizer();
    }

    /** The cursor stands in the buffer, on the rest of the line. */
    ghost predicate Cutting(input: array<byte>)
      reads tokens, input
    {
      0 <= tokens.last <= input.Length && Terminated(input[..], tokens.last)
    }

    /** The part of the line that is not cut yet. */
    ghost function Rest(input: array<byte>): seq<byte>
      requires Cutting(input)
      reads tokens, input
    {
      StringAt(input[..], tokens.last)
    }

    /** The next token up to a delimiter, as a position. */
    method NextToken(input: array<byte>, d: byte) returns (token: int)
      requires Cutting(input)
      modifies tokens, input
      ensures Cutting(input) && tokens.last >= old(tokens.last)
      ensures token == if old(Rest(input)) == [] then -1 else old(tokens.last)
      ensures Rest(input) == if d == 0 then [] else Tail(old(Rest(input)), d)
      ensures token != -1 ==> Terminated(input[..], token)
      ensures token != -1 ==>
        StringAt(input[..], token) == if d == 0 then old(Rest(input)) else Head(old(Rest(input)), d)
      ensures token != -1 && Rest(input) != [] ==> tokens.last > token + |StringAt(input[..], token)|
      ensures input[..old(tokens.last)] == old(input[..tokens.last])
      ensures token == -1 ==> input[..] == old(input[..])
      ensures d != 0 ==> input[..] == Blanked(old(input[..]), old(tokens.last), tokens.last, d)
      ensures tokens.last + |Rest(input)| == old(tokens.last) + |old(Rest(input))|
    {
      ghost var s, p := input[..], tokens.last;
      CutDeliversHead(s, p, d);
      CutFrame(s, p, d);
      CutLeavesTail(s, p, d);
      token := tokens.Strtok(input, false, d);
      if d != 0 {
        BlankedCut(s, p, d);
      }
    }

    method Print(text: message)
      modifies fs.console
      ensures fs.console.out == old(fs.console.out) + [text]
    {
      fs.console.Print(text);
    }

    /** echo prints every token followed by a blank, and leaves every blank of its arguments replaced by a NUL. */
    method CmdEcho(input: array<byte>)
      requires Cutting(input) && S.Safe(fs.State())
      modifies tokens, input, fs.console
      ensures Effect(old(fs.State()), old(fs.console.out), Echo(TokensOf(old(Rest(input)), BLANK)),
                     fs.State(), fs.console.out)
      ensures input[..] == Blanked(old(input[..]), old(tokens.last), old(tokens.last + |Rest(input)|), BLANK)
    {
      ghost var text := EchoMessages(TokensOf(Rest(input), BLANK));
      EchoTokens(input, text);
      Print(V.NEWLINE);
      assert fs.console.out == old(fs.console.out) + (text + [V.NEWLINE]);
    }

    method EchoTokens(input: array<byte>, ghost text: seq<message>)
      requires Cutting(input) && text == EchoMessages(TokensOf(Rest(input), BLANK))
      modifies tokens, input, fs.console
      ensures fs.console.out == old(fs.console.out) + text
      ensures input[..] == Blanked(old(input[..]), old(tokens.last), old(tokens.last + |Rest(input)|), BLANK)
    {
      ghost var goal, s, p, end := fs.console.out + text, input[..], tokens.last, tokens.last + |Rest(input)|;
      ghost var r := Rest(input);
      var arg := EchoFirst(input, goal);
      EchoRest(input, arg, r, s, p, end, goal);
    }

    /** The loop of echo. */
    method EchoRest(input: array<byte>, first: int, ghost left: seq<byte>, ghost s: seq<byte>, ghost p: int,
                    ghost end: int, ghost goal: seq<message>)
      requires Echoing(input, first, left, s, p, end, goal)
      modifies tokens, input, fs.console
      ensures fs.console.out == goal && input[..] == Blanked(s, p, end, BLANK)
    {
      ghost var r := left;
      var arg := first;
      while arg != -1
        invariant Echoing(input, arg, r, s, p, end, goal)
        decreases |r|
      {
        arg := EchoNext(input, arg, r, s, p, end, goal);
        r := Tail(r, BLANK);
      }
      EchoEnds(input, r, s, p, end, goal);
    }

    /** r is the text that was left before the token at arg was cut off it; what is printed now, and what echo will
        print of r, make the goal. The buffer was s; its blanks from place p to the cursor are NULs, and the text ends
        at place end. */
    ghost predicate Echoing(input: array<byte>, arg: int, r: seq<byte>, s: seq<byte>, p: int, end: int,
                            goal: seq<message>)
      reads tokens, input, fs.console
    {
      && Cutting(input)
      && Rest(input) == (if r == [] then [] else Tail(r, BLANK))
      && (if r == [] then arg == -1 else 0 <= arg <= input.Length && StringAt(input[..], arg) == Head(r, BLANK))
      && p <= tokens.last && tokens.last + |Rest(input)| == end
      && input[..] == Blanked(s, p, tokens.last, BLANK)
      && fs.console.out + EchoMessages(TokensOf(r, BLANK)) == goal
    }

    lemma EchoEnds(input: array<byte>, r: seq<byte>, s: seq<byte>, p: int, end: int, goal: seq<message>)
      requires Echoing(input, -1, r, s, p, end, goal)
      ensures fs.console.out == goal && input[..] == Blanked(s, p, end, BLANK)
    {
      AllSaid(fs.console.out, goal);
    }

    method EchoFirst(input: array<byte>, ghost goal: seq<message>) returns (arg: int)
      requires Cutting(input) && goal == fs.console.out + EchoMessages(TokensOf(Rest(input), BLANK))
      modifies tokens, input
      ensures Echoing(input, arg, old(Rest(input)), old(input[..]), old(tokens.last),
                      old(tokens.last + |Rest(input)|), goal)
    {
      arg := NextToken(input, BLANK);
    }

    method EchoNext(input: array<byte>, arg: nat, ghost r: seq<byte>, ghost s: seq<byte>, ghost p: int, ghost end: int,
                    ghost goal: seq<message>)
      returns (next: int)
      requires Echoing(input, arg, r, s, p, end, goal)
      modifies tokens, input, fs.console
      ensures Echoing(input, next, Tail(r, BLANK), s, p, end, goal)
    {
      EchoStep(fs.console.out, r);
      Print(StringAt(input[..], arg));
      Print([BLANK]);
      ghost var e := tokens.last;
      next := NextToken(input, BLANK);
      BlankedTwice(s, p, e, tokens.last, BLANK);
    }

    /** execute_command: the first token names the command, its handler cuts up the rest. */
    method Execute(input: array<byte>)
      requires Terminated(input[..], 0) && S.Safe(fs.State())
      modifies input, tokens, fs, fs.disk, fs.console
      ensures Effect(old(fs.State()), old(fs.console.out), Parse(StringAt(old(input[..]), 0)),
                     fs.State(), fs.console.out)
    {
      if input[0] == 0 {
        assert fs.console.out == fs.console.out + [];
        return;
      }
      ghost var line := StringAt(input[..], 0);
      ghost var action := Parse(line);
      ParseIsProper(line);
      var command := FirstToken(input);
      var index := FindCommand(input, command);
      if index == NUM_COMMANDS {
        fs.console.PrintAll(UnknownCommand(StringAt(input[..], command)));
      } else {
        Handle(input, index, action);
      }
    }

    method FirstToken(input: array<byte>) returns (command: nat)
      requires Terminated(input[..], 0) && input[0] != 0
      modifies input, tokens
      ensures Cutting(input) && command <= input.Length && Terminated(input[..], command)
      ensures StringAt(input[..], command) == Head(StringAt(old(input[..]), 0), BLANK)
      ensures Rest(input) == Tail(StringAt(old(input[..]), 0), BLANK)
    {
      CutDeliversHead(input[..], 0, BLANK);
      CutLeavesTail(input[..], 0, BLANK);
      command := tokens.Strtok(input, true, BLANK);
    }

    method IsCommand(input: array<byte>, command: nat, index: nat) returns (same: bool)
      requires command <= input.Length && Terminated(input[..], command) && index < NUM_COMMANDS
      ensures same <==> Ascii(CommandName(index)) == StringAt(input[..], command)
    {
      var name := Ascii(CommandName(index));
      CommandsAreCStrings(index);
      CompareEqual(StringAt(input[..], command), name, 0);
      var r := StrCmp(input, command, name);
      same := r == 0;
    }

    method FindCommand(input: array<byte>, command: nat) returns (index: nat)
      requires command <= input.Length && Terminated(input[..], command)
      ensures index == Lookup(StringAt(input[..], command), 0)
    {
      ghost var name := StringAt(input[..], command);
      index := 0;
      while index < NUM_COMMANDS
        invariant index <= NUM_COMMANDS && NoneEarlier(name, index)
      {
        var same := IsCommand(input, command, index);
        if same {
          break;
        }
        index := index + 1;
      }
      LookupIs(name, 0, index);
    }

    method Handle(input: array<byte>, index: nat, ghost action: Action)
      requires Cutting(input) && S.Safe(fs.State())
      requires action == Interpret(index, Rest(input)) && IsProper(action)
      modifies input, tokens, fs, fs.disk, fs.console
      ensures Effect(old(fs.State()), old(fs.console.out), action, fs.State(), fs.console.out)
    {
      if index == ECHO {
        CmdEcho(input);
      } else if index == WRITE {
        CmdWrite(input, action);
      } else if index == MKDIR || index == CD || index == CAT || index == RM {
        CmdOne(input, index, action);
      } else if index == MKAPP {
        CmdMkApp(AppCall());
      }
    }

    method CmdMkApp(call: V.Command)
      requires S.Safe(fs.State()) && V.Proper(call)
      modifies fs, fs.disk, fs.console
      ensures Effect(old(fs.State()), old(fs.console.out), Install(call), fs.State(), fs.console.out)
    {
      AppEffect(fs.State(), fs.console.out, call);
      MessagesAssociate(fs.console.out, V.Messages(call, S.Answer(fs.State(), call)), [AppInstalled()]);
      Invoke(call);
      Print(AppInstalled());
    }

    /** The arguments of write, each null if missing: the name and the extension up to a blank, the content whole. */
    method WriteArguments(input: array<byte>) returns (name: int, ext: int, content: int)
      requires Cutting(input)
      modifies tokens, input
      ensures var args := old(Rest(input)); var afterName := Tail(args, BLANK); var text := Tail(afterName, BLANK);
        && (name == -1 <==> args == []) && (ext == -1 <==> afterName == []) && (content == -1 <==> text == [])
        && (content != -1 ==>
             && 0 <= name <= input.Length && 0 <= ext <= input.Length && 0 <= content <= input.Length
             && Terminated(input[..], name) && Terminated(input[..], ext)
             && StringAt(input[..], name) == Head(args, BLANK)
             && StringAt(input[..], ext) == Head(afterName, BLANK)
             && StringAt(input[..], content) == text)
    {
      name := NextToken(input, BLANK);
      ghost var s1, p1 := input[..], tokens.last;
      ext := NextToken(input, BLANK);
      ghost var s2, p2 := input[..], tokens.last;
      content := NextToken(input, 0);
      if content != -1 {
        StringKept(s1, s2, name, p1);
        StringKept(s2, input[..], name, p2);
        StringKept(s2, input[..], ext, p2);
      }
    }

    /** The two loops that pad the name to 8 and the extension to 3 characters. */
    method BuildFatName(input: array<byte>, name: nat, ext: nat) returns (fatName: seq<byte>)
      requires Terminated(input[..], name) && Terminated(input[..], ext)
      requires name <= input.Length && ext <= input.Length
      ensures fatName == FatName(StringAt(input[..], name), StringAt(input[..], ext))
    {
      var buffer := new byte[12];
      FillPadded(input, name, buffer, 0, 8);
      FillPadded(input, ext, buffer, 8, 3);
      buffer[11] := 0;
      fatName := buffer[..11];
    }

    method FillPadded(input: array<byte>, p: nat, buffer: array<byte>, at: nat, n: nat)
      requires p <= input.Length && Terminated(input[..], p) && at + n <= buffer.Length && input != buffer
      modifies buffer
      ensures buffer[at..at + n] == Pad(StringAt(input[..], p), n)
      ensures buffer[..at] == old(buffer[..at])
    {
      var length := StrLen(input, p);
      for i := 0 to n
        invariant forall o :: 0 <= o < i ==> buffer[at + o] == Pad(StringAt(input[..], p), n)[o]
        invariant buffer[..at] == old(buffer[..at])
      {
        buffer[at + i] := if i < length then input[p + i] else BLANK;
      }
    }

    /** Calls the file system. */
    method Invoke(call: V.Command)
      requires S.Safe(fs.State()) && V.Proper(call)
      modifies fs, fs.disk, fs.console
      ensures fs.State() == V.Next(old(fs.State()), call)
      ensures fs.console.out == old(fs.console.out) + V.Messages(call, S.Answer(old(fs.State()), call))
    {
      SafeCall(fs.State(), call);
      match call
      case Write(name, content) => fs.WriteFile(name, content);
      case Mkdir(name) => fs.MakeDirectory(name);
      case Cd(name) => fs.ChangeDirectory(name);
      case Rm(name) => fs.RemoveFile(name);
      case Cat(name) => fs.CatFile(name);
    }

    /** mkdir, cd, cat and rm take the next token as their argument. */
    method CmdOne(input: array<byte>, index: nat, ghost action: Action)
      requires Cutting(input) && S.Safe(fs.State())
      requires index == MKDIR || index == CD || index == CAT || index == RM
      requires action == Interpret(index, Rest(input)) && IsProper(action)
      modifies tokens, input, fs, fs.disk, fs.console
      ensures Effect(old(fs.State()), old(fs.console.out), action, fs.State(), fs.console.out)
    {
      InterpretOne(index, Rest(input));
      var token := NextToken(input, BLANK);
      if token == -1 {
        MissingEffect(fs.State(), fs.console.out, index);
        Print(Usage(index));
      } else {
        var call := CallWith(index, StringAt(input[..], token));
        assert action == Call(call);
        CallEffect(fs.State(), fs.console.out, call);
        Invoke(call);
      }
    }

    /** write takes two tokens and the rest of the line. */
    method CmdWrite(input: array<byte>, ghost action: Action)
      requires Cutting(input) && S.Safe(fs.State())
      requires action == Interpret(WRITE, Rest(input)) && IsProper(action)
      modifies tokens, input, fs, fs.disk, fs.console
      ensures Effect(old(fs.State()), old(fs.console.out), action, fs.State(), fs.console.out)
    {
      InterpretWrite(Rest(input));
      var name, ext, content := WriteArguments(input);
      if name == -1 || ext == -1 || content == -1 {
        MissingEffect(fs.State(), fs.console.out, WRITE);
        Print(Usage(WRITE));
      } else {
        var fatName := BuildFatName(input, name, ext);
        var call := V.Write(fatName, StringAt(input[..], content));
        assert action == Call(call);
        CallEffect(fs.State(), fs.console.out, call);
        Invoke(call);
      }
    }
  }

  /** The new state and output are those of the action on the old ones; nothing is said of the other commands. */
  ghost predicate Effect(v: V.Volume, out: seq<message>, action: Action, w: V.Volume, out': seq<message>) {
    && S.Safe(v) && IsProper(action)
    && (!action.Other? ==> w == Perform(v, action).0 && out' == out + Perform(v, action).1)
  }
}
