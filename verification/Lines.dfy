/** What the command lines do on a safe disk: the bytes they change and the texts they print. */
module Lines {
  import opened Bytes
  import opened Strings
  import opened Shell
  import opened Commands
  import opened DiskBytes
  import V = Volume
  import S = Simulation
  import T = Tree
  import C = Chains
  import L = Layout

  // ----- from a line to a call

  /** The line runs, takes v to w and prints these messages. */
  ghost predicate Runs(v: V.Volume, line: seq<byte>, w: V.Volume, printed: seq<message>) {
    S.Safe(v) && IsCString(line) && IsModelled(line) && RunLine(v, line) == (w, printed)
  }

  /** A line of a command is a C string. */
  lemma CommandLine(word: string, i: nat, args: seq<byte>)
    requires Names(word, i) && IsCString(args)
    ensures IsCString(Ascii(word)) && IsCString(Line(word, args)) && IsCString(Head(args, 32))
  {
    CommandsAreCStrings(i);
  }

  lemma RunsCall(v: V.Volume, line: seq<byte>, c: V.Command)
    requires S.Safe(v) && IsCString(line) && Parse(line) == Call(c)
    ensures V.Proper(c) && Runs(v, line, V.Next(v, c), V.Messages(c, S.Answer(v, c)))
  {
    ParseIsProper(line);
  }

  lemma RunsInstall(v: V.Volume, line: seq<byte>, c: V.Command)
    requires S.Safe(v) && IsCString(line) && Parse(line) == Install(c)
    ensures V.Proper(c) && Runs(v, line, V.Next(v, c), V.Messages(c, S.Answer(v, c)) + [AppInstalled()])
  {
    ParseIsProper(line);
  }

  lemma WriteReply(v: V.Volume, padded: seq<byte>, content: seq<byte>)
    requires S.Safe(v) && V.Proper(V.Write(padded, content))
    ensures V.WriteFile(v, padded, content)
         == (V.Next(v, V.Write(padded, content)), S.Answer(v, V.Write(padded, content)))
  {
  }

  lemma CatReply(v: V.Volume, name: seq<byte>)
    requires S.Safe(v) && IsCString(name) && V.CatEnds(v, name)
    ensures V.Next(v, V.Cat(name)) == v && S.Answer(v, V.Cat(name)) == V.CatFile(v, name)
  {
  }

  lemma RmReply(v: V.Volume, name: seq<byte>)
    requires S.Safe(v) && IsCString(name)
    ensures V.RemoveFile(v, name) == (V.Next(v, V.Rm(name)), S.Answer(v, V.Rm(name)))
  {
  }

  /** A cd, from what it does to the volume and answers. */
  lemma RunsCd(v: V.Volume, args: seq<byte>, r: (V.Volume, V.Reply))
    requires S.Safe(v) && IsCString(args) && args != [] && V.ChangeDirectory(v, Head(args, 32)) == r
    ensures Runs(v, Line("cd", args), r.0, V.Messages(V.Cd(Head(args, 32)), r.1))
  {
    CdName();
    CommandLine("cd", CD, args);
    ParseCd(args);
    RunsCall(v, Line("cd", args), V.Cd(Head(args, 32)));
  }

  lemma RunsRm(v: V.Volume, args: seq<byte>, r: (V.Volume, V.Reply))
    requires S.Safe(v) && IsCString(args) && args != [] && V.RemoveFile(v, Head(args, 32)) == r
    ensures Runs(v, Line("rm", args), r.0, V.Messages(V.Rm(Head(args, 32)), r.1))
  {
    RmName();
    CommandLine("rm", RM, args);
    ParseRm(args);
    RmReply(v, Head(args, 32));
    RunsCall(v, Line("rm", args), V.Rm(Head(args, 32)));
  }

  lemma RunsCat(v: V.Volume, args: seq<byte>, r: V.Reply)
    requires S.Safe(v) && IsCString(args) && args != []
    requires V.CatEnds(v, Head(args, 32)) && V.CatFile(v, Head(args, 32)) == r
    ensures Runs(v, Line("cat", args), v, V.Messages(V.Cat(Head(args, 32)), r))
  {
    CatName();
    CommandLine("cat", CAT, args);
    ParseCat(args);
    CatReply(v, Head(args, 32));
    RunsCall(v, Line("cat", args), V.Cat(Head(args, 32)));
  }

  lemma RunsNothing(v: V.Volume, line: seq<byte>, index: nat)
    requires S.Safe(v) && IsCString(line) && Parse(line) == Missing(index)
    ensures Runs(v, line, v, [Usage(index)])
  {
  }

  // ----- the texts

  lemma CdTexts(name: seq<byte>)
    ensures V.Messages(V.Cd(name), V.AtRoot) == [Ascii("current position: root directory\n")]
    ensures V.Messages(V.Cd(name), V.Entered) == [Ascii("Entering the directory '"), name, Ascii("'\n")]
    ensures V.Messages(V.Cd(name), V.NotADirectory)
         == [Ascii("Error: '"), name, Ascii("' this is a file not a directory\n")]
    ensures V.Messages(V.Cd(name), V.NotFound) == [Ascii("Error: directory not found\n")]
  {
  }

  lemma RmTexts(name: seq<byte>)
    ensures V.Messages(V.Rm(name), V.Deleted) == [Ascii("file or directory '"), name, Ascii("' deleted.\n")]
    ensures V.Messages(V.Rm(name), V.NotFound) == [Ascii("Error: file not fount.\n")]
  {
  }

  lemma CatTexts(name: seq<byte>, pieces: seq<seq<byte>>)
    ensures V.Messages(V.Cat(name), V.Shown(pieces)) == [[10]] + pieces + [[10, 10]]
    ensures V.Messages(V.Cat(name), V.NotFound) == [Ascii("Error: File not found.\n")]
  {
  }

  lemma MkdirTexts(name: seq<byte>)
    ensures V.Messages(V.Mkdir(name), V.DiskFull) == [Ascii("Error: disk is full\n")]
    ensures V.Messages(V.Mkdir(name), V.DirectoryFull) == [Ascii("Error: root dir is full\n")]
    ensures V.Messages(V.Mkdir(name), V.Stored) == [Ascii("Directory '"), name, Ascii("' successfuly create\n")]
  {
  }

  lemma WriteTexts(name: seq<byte>, content: seq<byte>)
    ensures V.Messages(V.Write(name, content), V.DiskFull) == [Ascii("Error: disk is full\n")]
    ensures V.Messages(V.Write(name, content), V.DirectoryFull)
         == [Ascii("Error: cannot create more file within the main root\n")]
    ensures V.Messages(V.Write(name, content), V.Stored) == [Ascii("file '"), name, Ascii("' save successfuly.\n")]
  {
  }

  // ----- safe disks

  /** The clusters of the entry that answers are linked. */
  lemma SafeLinked(v: V.Volume, name: seq<byte>, k: nat) returns (ch: seq<byte>)
    requires S.Safe(v) && Answers(v.disk[DirectoryPlace(v)], name, k)
    ensures Linked(v.disk, ClusterOf(v.disk[DirectoryPlace(v)], k), ch)
  {
    var a := S.SafeRepresents(v);
    var e := AnswersAs(v, name, k);
    S.NamedAgrees(v, a, name);
    ch := ChainLinked(v.disk, e.cluster);
  }

  lemma ChainLinked(d: T.disk, c: u16) returns (ch: seq<byte>)
    requires C.Chained(T.Table(d), c)
    ensures Linked(d, c, ch)
  {
    var chain := C.Chain(T.Table(d), c);
    ch := seq(|chain|, i requires 0 <= i < |chain| => C.ChainStep(T.Table(d), c, i); chain[i]);
    forall i | 0 <= i < |ch|
      ensures T.Table(d)[ch[i]] == WordAt(d, ch[i])
    {
      TableBytes(d, ch[i]);
    }
  }

  lemma SafeInAllocated(v: V.Volume)
    requires S.Safe(v)
    ensures InAllocated(v)
  {
    var a := S.SafeRepresents(v);
    T.ReachableAllocated(v.disk, a.cwd);
    FreeBytes(v.disk, v.cwd);
  }

  // ----- rm

  lemma RmLine(v: V.Volume, args: seq<byte>, k: nat) returns (ch: seq<byte>, w: V.Volume)
    requires S.Safe(v) && IsCString(args) && args != [] && Answers(v.disk[DirectoryPlace(v)], Head(args, 32), k)
    ensures Linked(v.disk, ClusterOf(v.disk[DirectoryPlace(v)], k), ch) && Removed(v, w, k, ch)
    ensures Runs(v, Line("rm", args), w, [Ascii("file or directory '"), Head(args, 32), Ascii("' deleted.\n")])
  {
    ch := SafeLinked(v, Head(args, 32), k);
    w := RemoveBytes(v, Head(args, 32), k, ch);
    RunsRm(v, args, (w, V.Deleted));
    RmTexts(Head(args, 32));
  }

  lemma RmLineMissing(v: V.Volume, args: seq<byte>)
    requires S.Safe(v) && IsCString(args) && args != []
    requires forall k :: !Answers(v.disk[DirectoryPlace(v)], Head(args, 32), k)
    ensures Runs(v, Line("rm", args), v, [Ascii("Error: file not fount.\n")])
  {
    RemoveNothing(v, Head(args, 32));
    RunsRm(v, args, (v, V.NotFound));
    RmTexts(Head(args, 32));
  }

  // ----- cat

  lemma CatLinePrints(v: V.Volume, args: seq<byte>, k: nat) returns (ch: seq<byte>, pieces: seq<seq<byte>>)
    requires S.Safe(v) && IsCString(args) && args != [] && Answers(v.disk[DirectoryPlace(v)], Head(args, 32), k)
    ensures Linked(v.disk, ClusterOf(v.disk[DirectoryPlace(v)], k), ch) && AreTexts(v.disk, ch, pieces)
    ensures Runs(v, Line("cat", args), v, [[10]] + pieces + [[10, 10]])
  {
    ch := SafeLinked(v, Head(args, 32), k);
    pieces := CatBytes(v, Head(args, 32), k, ch);
    RunsCat(v, args, V.Shown(pieces));
    CatTexts(Head(args, 32), pieces);
  }

  lemma CatLineMissing(v: V.Volume, args: seq<byte>)
    requires S.Safe(v) && IsCString(args) && args != []
    requires forall k :: !Answers(v.disk[DirectoryPlace(v)], Head(args, 32), k)
    ensures Runs(v, Line("cat", args), v, [Ascii("Error: File not found.\n")])
  {
    CatNotFound(v, Head(args, 32));
    RunsCat(v, args, V.NotFound);
    CatTexts(Head(args, 32), []);
  }

  // ----- cd

  /** The lines "cd .." and "cd /" lead to the root from every directory, whatever any of them holds. */
  lemma CdToRoot(v: V.Volume)
    requires S.Safe(v)
    ensures Runs(v, Ascii("cd .."), v.(cwd := 0), [Ascii("current position: root directory\n")])
    ensures Runs(v, Ascii("cd /"), v.(cwd := 0), [Ascii("current position: root directory\n")])
  {
    assert Ascii("cd ..") == Line("cd", [46, 46]) && Ascii("cd /") == Line("cd", [47]);
    CdToRootLine(v, [46, 46]);
    CdToRootLine(v, [47]);
  }

  lemma CdToRootLine(v: V.Volume, name: seq<byte>)
    requires S.Safe(v) && (name == [46, 46] || name == [47])
    ensures Runs(v, Line("cd", name), v.(cwd := 0), [Ascii("current position: root directory\n")])
  {
    CutAtBlank(name, []);
    ChangeToRoot(v, name);
    CdTexts(name);
    RunsCd(v, name, (v.(cwd := 0), V.AtRoot));
  }

  /** As calls: the state and the answer. */
  lemma CdCalls(v: V.Volume)
    requires S.Safe(v)
    ensures V.Next(v, V.Cd(Ascii(".."))) == V.Next(v, V.Cd(Ascii("/"))) == v.(cwd := 0)
    ensures V.ReplyTo(v, V.Cd(Ascii(".."))) == V.ReplyTo(v, V.Cd(Ascii("/"))) == V.AtRoot
  {
    assert Ascii("..") == [46, 46] && Ascii("/") == [47];
    ChangeToRoot(v, [46, 46]);
    ChangeToRoot(v, [47]);
  }

  lemma CdLine(v: V.Volume, args: seq<byte>, k: nat)
    requires S.Safe(v) && IsCString(args) && args != [] && Head(args, 32) != [47] && Head(args, 32) != [46, 46]
    requires Answers(v.disk[DirectoryPlace(v)], Head(args, 32), k)
    ensures v.disk[DirectoryPlace(v)][32 * k + 11] == 0x10 ==>
      0 <= ClusterOf(v.disk[DirectoryPlace(v)], k) < 0x1_0000
      && Runs(v, Line("cd", args), v.(cwd := ClusterOf(v.disk[DirectoryPlace(v)], k)),
              [Ascii("Entering the directory '"), Head(args, 32), Ascii("'\n")])
    ensures v.disk[DirectoryPlace(v)][32 * k + 11] != 0x10 ==>
      Runs(v, Line("cd", args), v,
           [Ascii("Error: '"), Head(args, 32), Ascii("' this is a file not a directory\n")])
  {
    var s := v.disk[DirectoryPlace(v)];
    ChangeBytes(v, Head(args, 32), k);
    CdTexts(Head(args, 32));
    if s[32 * k + 11] == 0x10 {
      RunsCd(v, args, (v.(cwd := ClusterOf(s, k)), V.Entered));
    } else {
      RunsCd(v, args, (v, V.NotADirectory));
    }
  }

  lemma CdLineMissing(v: V.Volume, args: seq<byte>)
    requires S.Safe(v) && IsCString(args) && args != [] && Head(args, 32) != [47] && Head(args, 32) != [46, 46]
    requires forall k :: !Answers(v.disk[DirectoryPlace(v)], Head(args, 32), k)
    ensures Runs(v, Line("cd", args), v, [Ascii("Error: directory not found\n")])
  {
    ChangeNothing(v, Head(args, 32));
    CdTexts(Head(args, 32));
    RunsCd(v, args, (v, V.NotFound));
  }

  // ----- mkdir

  /** How a mkdir ends: the disk afterwards, and the messages. */
  predicate Makes(v: V.Volume, w: V.Volume, c: byte, k: L.slot, name: seq<byte>, padded: seq<byte>,
                  printed: seq<message>)
    requires v.Valid() && |padded| == 11
  {
    if IsFull(v.disk) then w == v && printed == [Ascii("Error: disk is full\n")]
    else if NoneOpen(v.disk[DirectoryPlace(v)]) then w == v && printed == [Ascii("Error: root dir is full\n")]
    else
      && Added(v, w, c, k, padded, 0x10, 0) && w.disk[98 + c as int] == seq(512, _ => 0)
      && printed == [Ascii("Directory '"), name, Ascii("' successfuly create\n")]
  }

  lemma MakeCall(v: V.Volume, name: seq<byte>, padded: seq<byte>, r: (V.Volume, V.Reply))
    returns (c: byte, k: L.slot)
    requires v.Valid() && InAllocated(v) && IsFatName(name, [], padded) && r == V.MakeDirectory(v, name)
    ensures Makes(v, r.0, c, k, name, padded, V.Messages(V.Mkdir(name), r.1))
  {
    MkdirTexts(name);
    c, k := MakeBytes(v, name, padded);
  }

  lemma MkdirLine(v: V.Volume, args: seq<byte>, padded: seq<byte>)
    returns (c: byte, k: L.slot, w: V.Volume, printed: seq<message>)
    requires S.Safe(v) && IsCString(args) && args != [] && IsFatName(Head(args, 32), [], padded)
    ensures Runs(v, Line("mkdir", args), w, printed) && Makes(v, w, c, k, Head(args, 32), padded, printed)
  {
    var call := V.Mkdir(Head(args, 32));
    MkdirName();
    CommandLine("mkdir", MKDIR, args);
    ParseMkdir(args);
    RunsCall(v, Line("mkdir", args), call);
    SafeInAllocated(v);
    c, k := MakeCall(v, call.name, padded, V.MakeDirectory(v, call.name));
    w, printed := V.Next(v, call), V.Messages(call, S.Answer(v, call));
  }

  // ----- write and mkapp

  /** How a write ends: the disk afterwards, and the messages. */
  predicate Writes(v: V.Volume, w: V.Volume, c: byte, k: L.slot, padded: seq<byte>, content: seq<byte>,
                   printed: seq<message>)
    requires v.Valid() && |padded| == 11
  {
    if IsFull(v.disk) then w == v && printed == [Ascii("Error: disk is full\n")]
    else if NoneOpen(v.disk[DirectoryPlace(v)]) then
      w == v && printed == [Ascii("Error: cannot create more file within the main root\n")]
    else
      && Added(v, w, c, k, padded, 0x20, |content| % 0x1_0000_0000) && Holds(w.disk[98 + c as int], content)
      && printed == [Ascii("file '"), padded, Ascii("' save successfuly.\n")]
  }

  lemma WriteCall(v: V.Volume, padded: seq<byte>, content: seq<byte>, r: (V.Volume, V.Reply))
    returns (c: byte, k: L.slot)
    requires v.Valid() && InAllocated(v) && |padded| == 11 && r == V.WriteFile(v, padded, content)
    ensures Writes(v, r.0, c, k, padded, content, V.Messages(V.Write(padded, content), r.1))
  {
    WriteTexts(padded, content);
    c, k := WriteBytes(v, padded, content);
  }

  lemma WriteLineRuns(v: V.Volume, name: seq<byte>, ext: seq<byte>, content: seq<byte>, padded: seq<byte>)
    returns (c: byte, k: L.slot, w: V.Volume, printed: seq<message>)
    requires S.Safe(v) && IsCString(name) && IsCString(ext) && IsCString(content)
    requires 32 !in name && 32 !in ext && content != [] && IsFatName(name, ext, padded)
    ensures Runs(v, WriteLine(name, ext, content), w, printed) && Writes(v, w, c, k, padded, content, printed)
  {
    var call := V.Write(padded, content);
    WriteName();
    CommandLine("write", WRITE, name + [32] + (ext + [32] + content));
    ParseWritePadded(name, ext, content, padded);
    RunsCall(v, WriteLine(name, ext, content), call);
    WriteReply(v, padded, content);
    SafeInAllocated(v);
    c, k := WriteCall(v, padded, content, (V.Next(v, call), S.Answer(v, call)));
    w, printed := V.Next(v, call), V.Messages(call, S.Answer(v, call));
  }

  lemma InstallRuns(v: V.Volume, line: seq<byte>, padded: seq<byte>, content: seq<byte>)
    returns (c: byte, k: L.slot, w: V.Volume, printed: seq<message>)
    requires S.Safe(v) && IsCString(line) && Parse(line) == Install(V.Write(padded, content)) && |padded| == 11
    ensures Writes(v, w, c, k, padded, content, printed) && Runs(v, line, w, printed + [AppInstalled()])
  {
    var call := V.Write(padded, content);
    RunsInstall(v, line, call);
    WriteReply(v, padded, content);
    SafeInAllocated(v);
    c, k := WriteCall(v, padded, content, (V.Next(v, call), S.Answer(v, call)));
    w, printed := V.Next(v, call), V.Messages(call, S.Answer(v, call));
  }

  lemma AppText()
    ensures AppInstalled() == Ascii("Program compiled and installed as APP.BIN\n")
  {
  }

  lemma MkappLine(v: V.Volume, args: seq<byte>)
    returns (c: byte, k: L.slot, w: V.Volume, printed: seq<message>)
    requires S.Safe(v) && IsCString(args)
    ensures Writes(v, w, c, k, Ascii("APP     BIN"), [0xCD, 0x80, 0xEB, 0xFE], printed)
    ensures Runs(v, Line("mkapp", args), w, printed + [Ascii("Program compiled and installed as APP.BIN\n")])
  {
    MkappName();
    CommandLine("mkapp", MKAPP, args);
    ParseMkapp(args);
    AppText();
    c, k, w, printed := InstallRuns(v, Line("mkapp", args), Ascii("APP     BIN"), [0xCD, 0x80, 0xEB, 0xFE]);
  }

  // ----- the other lines

  /** echo prints what was typed after it, with a blank behind a last word that lacks it, and a line feed. */
  lemma EchoLine(v: V.Volume, args: seq<byte>) returns (printed: seq<message>)
    requires S.Safe(v) && IsCString(args)
    ensures Runs(v, Line("echo", args), v, printed)
    ensures Flat(printed) == args + (if args == [] || args[|args| - 1] == 32 then [] else [32]) + [10]
  {
    EchoName();
    CommandLine("echo", ECHO, args);
    ParseEcho(args);
    EchoSays(v, args);
    printed := RunLine(v, Line("echo", args)).1;
  }

  lemma UnknownLine(v: V.Volume, line: seq<byte>)
    requires S.Safe(v) && IsCString(line) && line != []
    requires !IsOtherName(Head(line, 32)) && !IsModelledName(Head(line, 32))
    ensures Runs(v, line, v, [Ascii("unknow command: "), Head(line, 32), [10]])
  {
    FirstWord(line);
  }

  lemma EmptyLine(v: V.Volume)
    requires S.Safe(v)
    ensures Runs(v, [], v, [])
  {
  }

  // ----- what a missing argument prints

  lemma MkdirUsage(v: V.Volume)
    requires S.Safe(v)
    ensures Runs(v, Ascii("mkdir"), v, [Ascii("Error of sintax.\n- use: mkdir [name]\n")])
    ensures Runs(v, Line("mkdir", []), v, [Ascii("Error of sintax.\n- use: mkdir [name]\n")])
  {
    ParseMkdir([]);
    MkdirName();
    CommandLine("mkdir", MKDIR, []);
    RunsNothing(v, Ascii("mkdir"), MKDIR);
    RunsNothing(v, Line("mkdir", []), MKDIR);
  }

  lemma CdUsage(v: V.Volume)
    requires S.Safe(v)
    ensures Runs(v, Ascii("cd"), v, [Ascii("Error of sintax\n- use: cd [dirname]\n")])
    ensures Runs(v, Line("cd", []), v, [Ascii("Error of sintax\n- use: cd [dirname]\n")])
  {
    ParseCd([]);
    CdName();
    CommandLine("cd", CD, []);
    RunsNothing(v, Ascii("cd"), CD);
    RunsNothing(v, Line("cd", []), CD);
  }

  lemma CatUsage(v: V.Volume)
    requires S.Safe(v)
    ensures Runs(v, Ascii("cat"), v, [Ascii("Error: missing args\n- use: cat [filename]\n")])
    ensures Runs(v, Line("cat", []), v, [Ascii("Error: missing args\n- use: cat [filename]\n")])
  {
    ParseCat([]);
    CatName();
    CommandLine("cat", CAT, []);
    RunsNothing(v, Ascii("cat"), CAT);
    RunsNothing(v, Line("cat", []), CAT);
  }

  lemma RmUsage(v: V.Volume)
    requires S.Safe(v)
    ensures Runs(v, Ascii("rm"), v, [Ascii("Error: missing args.\nUse: rm [name]\n")])
    ensures Runs(v, Line("rm", []), v, [Ascii("Error: missing args.\nUse: rm [name]\n")])
  {
    ParseRm([]);
    RmName();
    CommandLine("rm", RM, []);
    RunsNothing(v, Ascii("rm"), RM);
    RunsNothing(v, Line("rm", []), RM);
  }

  /** write without a content: after nothing, a name, or a name and an extension. */
  lemma WriteUsage(v: V.Volume, name: seq<byte>, ext: seq<byte>, line: seq<byte>)
    requires S.Safe(v) && IsCString(line) && 32 !in name && 32 !in ext
    requires line == Ascii("write") || line == Line("write", []) || line == Line("write", name)
      || line == Line("write", name + [32]) || line == Line("write", name + [32] + ext)
      || line == Line("write", name + [32] + (ext + [32]))
    ensures Runs(v, line, v, [Ascii("Error: missing args\n- use: write [name(8)] [EXT(8)] [text...]\n")])
  {
    ParseWriteMissing(name, ext);
    RunsNothing(v, line, WRITE);
  }
}
