/** The abstract file system: a tree, a current directory and a number of free clusters; and the proof
    that the bytes on the disk behave like it, call by call and over every run. */
module Simulation {
  import opened Bytes
  import opened Layout
  import opened Chains
  import opened Tree
  import opened Volume
  import opened Creation
  import opened Removal

  datatype FileSystem = FileSystem(tree: tree, cwd: Path, free: nat)

  ghost function EmptyFileSystem(): FileSystem {
    FileSystem(imap[], Root, 254)
  }

  // ----- the abstract calls

  /** The first slot from i on of the directory at p that the tree does not use. */
  ghost function FirstFree(t: tree, p: Path, i: nat): Option<slot>
    requires i <= 16
    decreases 16 - i
  {
    if i == 16 then None else if In(p, i) !in t then Some(i) else FirstFree(t, p, i + 1)
  }

  /** The first slot from i on of the directory at p whose node has the given name. */
  ghost function Lookup(t: tree, p: Path, padded: seq<byte>, i: nat): (r: Option<slot>)
    requires i <= 16 && |padded| == 8
    ensures r.Some? ==> i <= r.value && In(p, r.value) in t
    decreases 16 - i
  {
    if i == 16 then None
    else if In(p, i) in t && |t[In(p, i)].name| == 8 && Matches(padded, t[In(p, i)].name) then Some(i)
    else Lookup(t, p, padded, i + 1)
  }

  ghost function Named(a: FileSystem, name: seq<byte>): (r: Option<slot>)
    ensures r.Some? ==> In(a.cwd, r.value) in a.tree
  {
    Lookup(a.tree, a.cwd, Pad(name, 8), 0)
  }

  /** A node whose name begins with the deletion mark takes a cluster but never shows up. */
  ghost function AddAt(a: FileSystem, k: slot, n: Node): FileSystem
    requires |n.name| == 8 && a.free > 0
  {
    FileSystem(if n.name[0] == DELETED_MARK then a.tree else a.tree[In(a.cwd, k) := n], a.cwd, a.free - 1)
  }

  ghost function Add(a: FileSystem, n: Node): (FileSystem, Reply)
    requires |n.name| == 8
  {
    if a.free == 0 then (a, DiskFull)
    else
      match FirstFree(a.tree, a.cwd, 0)
      case None => (a, DirectoryFull)
      case Some(k) => (AddAt(a, k, n), Stored)
  }

  /** Removing a node removes everything under it, but only the clusters of the node itself become free. */
  ghost function Remove(a: FileSystem, k: slot): FileSystem
    requires In(a.cwd, k) in a.tree
  {
    FileSystem(Pruned(a.tree, In(a.cwd, k)), a.cwd, a.free + a.tree[In(a.cwd, k)].Span())
  }

  /** What of a file's content reaches the disk. */
  function Kept(content: seq<byte>): seq<byte> {
    if |content| <= 511 then content else content[..511]
  }

  ghost function Perform(a: FileSystem, c: Command): (FileSystem, Reply)
    requires Proper(c)
  {
    match c
    case Write(name, content) =>
      Add(a, File(name[..8], name[8..], ARCHIVE, |content| % 0x1_0000_0000, [Kept(content)]))
    case Mkdir(name) => Add(a, Folder(Pad(name, 8), BLANK_EXT, 1))
    case Cd(name) =>
      if name == SLASH || name == DOTS then (a.(cwd := Root), AtRoot)
      else
        (match Named(a, name)
         case None => (a, NotFound)
         case Some(k) =>
           if a.tree[In(a.cwd, k)].Folder? then (a.(cwd := In(a.cwd, k)), Entered) else (a, NotADirectory))
    case Rm(name) =>
      (match Named(a, name)
       case None => (a, NotFound)
       case Some(k) => (Remove(a, k), Deleted))
    case Cat(name) =>
      (match Named(a, name)
       case None => (a, NotFound)
       case Some(k) => (a, Shown(if a.tree[In(a.cwd, k)].File? then a.tree[In(a.cwd, k)].pieces else [])))
  }

  ghost predicate ShowsFolder(a: FileSystem, c: Command) {
    c.Cat? && Named(a, c.name).Some? && a.tree[In(a.cwd, Named(a, c.name).value)].Folder?
  }

  /** The disk and the current directory stand for the abstract state. In particular the current
      directory is the root or an allocated directory reachable from it. */
  ghost predicate Represents(v: Volume, a: FileSystem) {
    && v.Valid() && Sound(v.disk)
    && a.tree == View(v.disk)
    && Resolve(v.disk, a.cwd) == Some(v.cwd)
    && a.free == |FreeClusters(Table(v.disk))|
  }

  // ----- the searches agree

  lemma LookupFindsNothing(t: tree, p: Path, padded: seq<byte>, i: nat)
    requires i <= 16 && |padded| == 8
    requires forall j: slot :: i <= j ==> In(p, j) !in t
    ensures Lookup(t, p, padded, i) == None
  {
  }

  /** The nodes that the tree has in the directory at p are exactly the live entries of the sector s. */
  ghost predicate Mirrors(t: tree, p: Path, s: sector) {
    forall i: slot ::
      (In(p, i) in t <==> EntryAt(s, i).Live()) && (In(p, i) in t ==> t[In(p, i)].name == EntryAt(s, i).name)
  }

  lemma ViewMirrors(d: disk, p: Path)
    requires AllChained(d) && Resolve(d, p).Some?
    ensures Mirrors(View(d), p, d[DirSector(Resolve(d, p).value)])
  {
  }

  lemma {:induction false} FindAgrees(t: tree, p: Path, s: sector, padded: seq<byte>, i: nat)
    requires Mirrors(t, p, s) && ZeroTail(s) && i <= 16 && |padded| == 8
    ensures FindFrom(s, padded, i) == Lookup(t, p, padded, i)
    decreases 16 - i
  {
    if i < 16 {
      if EntryAt(s, i).name[0] == END_MARK {
        forall j: slot | i <= j
          ensures In(p, j) !in t
        {
          assert EntryAt(s, j).name[0] == END_MARK;
        }
        LookupFindsNothing(t, p, padded, i);
      } else {
        FindAgrees(t, p, s, padded, i + 1);
      }
    }
  }

  lemma {:induction false} FreeSlotAgrees(t: tree, p: Path, s: sector, i: nat)
    requires Mirrors(t, p, s) && i <= 16
    ensures FreeSlotFrom(s, i) == FirstFree(t, p, i)
    decreases 16 - i
  {
    if i < 16 {
      FreeSlotAgrees(t, p, s, i + 1);
    }
  }

  lemma NamedAgrees(v: Volume, a: FileSystem, name: seq<byte>)
    requires Represents(v, a)
    ensures Find(v, name) == Named(a, name)
    ensures Named(a, name).Some? ==> var l := In(a.cwd, Named(a, name).value);
      && Occupied(v.disk, l) && At(v.disk, l) == EntryAt(v.Directory(), l.slot)
      && (a.tree[l].Folder? <==> At(v.disk, l).IsDirectory())
      && a.tree[l].Span() == |ChainAt(v.disk, l)|
      && (a.tree[l].File? ==>
           a.tree[l].pieces == Pieces(v.disk, ChainAt(v.disk, l)) && a.tree[l].size == At(v.disk, l).size)
  {
    ViewMirrors(v.disk, a.cwd);
    assert ZeroTail(v.Directory());
    FindAgrees(a.tree, a.cwd, v.Directory(), Pad(name, 8), 0);
    if Named(a, name).Some? {
      var l := In(a.cwd, Named(a, name).value);
      assert a.tree[l] == NodeAt(v.disk, l);
    }
  }

  lemma DiskFullAgrees(f: fat)
    ensures FreeClusterFrom(f, 2) == 0 <==> |FreeClusters(f)| == 0
  {
    var c := FreeClusterFrom(f, 2);
    if c == 0 {
      assert FreeClusters(f) == {};
    } else {
      assert c in FreeClusters(f);
    }
  }

  /** The one cluster of a new file shows exactly what was kept of its content. */
  lemma FileText(content: seq<byte>)
    requires IsCString(content)
    ensures Text(FileSector(content)) == Kept(content)
  {
    assert Kept(content) <= FileSector(content)[..511];
    UpToNulUnique(FileSector(content)[..511], Kept(content));
  }

  // ----- each call agrees

  lemma NotInItself(p: Path, k: slot)
    ensures p != In(p, k) && !Under(p, In(p, k))
  {
    if Under(p, In(p, k)) {
      UnderIsDeeper(p, In(p, k));
    }
  }

  lemma CreatedAgrees(v: Volume, a: FileSystem, k: slot, name: seq<byte>, attributes: byte, c: u16, size: u32,
                      body: sector)
    requires Represents(v, a) && Ready(v.disk, a.cwd, k, name, attributes, c, body)
    ensures a.free > 0
    ensures Represents(v.(disk := Install(v.disk, v.cwd, k, name, attributes, c, size, body)),
                       AddAt(a, k, NewNode(Entry(name[..8], name[8..], attributes, c, size), body)))
  {
    var e := Entry(name[..8], name[8..], attributes, c, size);
    var d' := Install(v.disk, v.cwd, k, name, attributes, c, size, body);
    InstalledGrows(v.disk, a.cwd, k, name, attributes, c, size, body);
    GrownSound(v.disk, d', a.cwd, k, e, body);
    GrownView(v.disk, d', a.cwd, k, e, body);
    NotInItself(a.cwd, k);
    LinkedPlaces(v.disk, d', a.cwd, k, e, a.cwd);
    AllocateOne(Table(v.disk), c, LAST_CLUSTER);
  }

  lemma CreateUnfolds(v: Volume, a: FileSystem, name: seq<byte>, attributes: byte, size: u32, body: sector, n: Node)
    requires v.Valid() && |name| == 11 && |n.name| == 8
    requires FreeSlotFrom(v.Directory(), 0) == FirstFree(a.tree, a.cwd, 0)
    requires FreeClusterFrom(Table(v.disk), 2) == 0 <==> a.free == 0
    ensures var c, k := FreeClusterFrom(Table(v.disk), 2), FirstFree(a.tree, a.cwd, 0);
      var r, s := Create(v, name, attributes, size, body), Add(a, n);
      if c == 0 then r == (v, DiskFull) && s == (a, DiskFull)
      else if k == None then r == (v, DirectoryFull) && s == (a, DirectoryFull)
      else
        && r == (v.(disk := Install(v.disk, v.cwd, k.value, name, attributes, c, size, body)), Stored)
        && s == (AddAt(a, k.value, n), Stored)
  {
  }

  /** A full disk is full, and the first free slot is the first one that the tree does not use. */
  lemma RoomAgrees(v: Volume, a: FileSystem)
    requires Represents(v, a)
    ensures FreeClusterFrom(Table(v.disk), 2) == 0 <==> a.free == 0
    ensures FreeSlotFrom(v.Directory(), 0) == FirstFree(a.tree, a.cwd, 0)
  {
    DiskFullAgrees(Table(v.disk));
    ViewMirrors(v.disk, a.cwd);
    FreeSlotAgrees(a.tree, a.cwd, v.Directory(), 0);
  }

  lemma CreateAgrees(v: Volume, a: FileSystem, name: seq<byte>, attributes: byte, size: u32, body: sector, n: Node)
    requires Represents(v, a)
    requires |name| == 11 && name[0] != END_MARK && (attributes == DIRECTORY ==> body == ZeroSector())
    requires n == NewNode(Entry(name[..8], name[8..], attributes, 0, size), body)
    ensures Represents(Create(v, name, attributes, size, body).0, Add(a, n).0)
    ensures Create(v, name, attributes, size, body).1 == Add(a, n).1
  {
    RoomAgrees(v, a);
    CreateUnfolds(v, a, name, attributes, size, body, n);
    var c, k := FreeClusterFrom(Table(v.disk), 2), FreeSlotFrom(v.Directory(), 0);
    if c != 0 && k.Some? {
      CreatedAgrees(v, a, k.value, name, attributes, c, size, body);
    }
  }

  lemma RemovedAgrees(v: Volume, a: FileSystem, k: slot)
    requires Represents(v, a) && Occupied(v.disk, In(a.cwd, k))
    ensures Represents(RemoveEntry(v, k), Remove(a, k))
  {
    var c := At(v.disk, In(a.cwd, k)).cluster;
    var d' := FreeClustersFrom(MarkDeleted(v.disk, v.cwd, k), c);
    RemovedCuts(v.disk, a.cwd, k);
    CutSound(v.disk, d', a.cwd, k);
    CutView(v.disk, d', a.cwd, k);
    NotInItself(a.cwd, k);
    CutPlaces(v.disk, d', a.cwd, k, a.cwd);
    FreeChain(Table(v.disk), c);
  }

  lemma RemoveUnfolds(v: Volume, a: FileSystem, name: seq<byte>)
    requires v.Valid() && Find(v, name) == Named(a, name) && IsCString(name)
    ensures Named(a, name) == None ==> RemoveFile(v, name) == (v, NotFound) && Perform(a, Rm(name)) == (a, NotFound)
    ensures Named(a, name).Some? ==> RemoveFile(v, name) == (RemoveEntry(v, Named(a, name).value), Deleted)
    ensures Named(a, name).Some? ==> Perform(a, Rm(name)) == (Remove(a, Named(a, name).value), Deleted)
  {
  }

  lemma RemoveAgrees(v: Volume, a: FileSystem, name: seq<byte>)
    requires Represents(v, a) && IsCString(name)
    ensures Represents(RemoveFile(v, name).0, Perform(a, Rm(name)).0)
    ensures RemoveFile(v, name).1 == Perform(a, Rm(name)).1
  {
    NamedAgrees(v, a, name);
    RemoveUnfolds(v, a, name);
    if Named(a, name).Some? {
      RemovedAgrees(v, a, Named(a, name).value);
    }
  }

  lemma EnteredAgrees(v: Volume, a: FileSystem, k: slot)
    requires Represents(v, a) && Occupied(v.disk, In(a.cwd, k)) && At(v.disk, In(a.cwd, k)).IsDirectory()
    ensures Represents(v.(cwd := At(v.disk, In(a.cwd, k)).cluster), a.(cwd := In(a.cwd, k)))
  {
  }

  lemma ChangeAgrees(v: Volume, a: FileSystem, name: seq<byte>)
    requires Represents(v, a) && IsCString(name)
    ensures Represents(ChangeDirectory(v, name).0, Perform(a, Cd(name)).0)
    ensures ChangeDirectory(v, name).1 == Perform(a, Cd(name)).1
  {
    NamedAgrees(v, a, name);
    var r, s := ChangeDirectory(v, name), Perform(a, Cd(name));
    if name == SLASH || name == DOTS {
      assert r == (v.(cwd := 0), AtRoot) && s == (a.(cwd := Root), AtRoot);
    } else if Named(a, name) == None {
      assert r == (v, NotFound) && s == (a, NotFound);
    } else if a.tree[In(a.cwd, Named(a, name).value)].Folder? {
      var k := Named(a, name).value;
      assert r == (v.(cwd := At(v.disk, In(a.cwd, k)).cluster), Entered) && s == (a.(cwd := In(a.cwd, k)), Entered);
      EnteredAgrees(v, a, k);
    } else {
      assert r == (v, NotADirectory) && s == (a, NotADirectory);
    }
  }

  lemma WriteAgrees(v: Volume, a: FileSystem, name: seq<byte>, content: seq<byte>)
    requires Represents(v, a) && Proper(Write(name, content))
    ensures Represents(WriteFile(v, name, content).0, Perform(a, Write(name, content)).0)
    ensures WriteFile(v, name, content).1 == Perform(a, Write(name, content)).1
  {
    FileText(content);
    var size := |content| % 0x1_0000_0000;
    var n := File(name[..8], name[8..], ARCHIVE, size, [Kept(content)]);
    CreateAgrees(v, a, name, ARCHIVE, size, FileSector(content), n);
  }

  lemma MakeAgrees(v: Volume, a: FileSystem, name: seq<byte>)
    requires Represents(v, a) && Proper(Mkdir(name))
    ensures Represents(MakeDirectory(v, name).0, Perform(a, Mkdir(name)).0)
    ensures MakeDirectory(v, name).1 == Perform(a, Mkdir(name)).1
  {
    var padded := Pad(name, 8) + BLANK_EXT;
    PadPrefix(name, 8, BLANK_EXT);
    CreateAgrees(v, a, padded, DIRECTORY, 0, ZeroSector(), Folder(Pad(name, 8), BLANK_EXT, 1));
  }

  /** What cat shows of the first cluster x of a chain, on the disk and in the node. */
  lemma CatUnfolds(v: Volume, a: FileSystem, name: seq<byte>)
    requires v.Valid() && Find(v, name) == Named(a, name) && IsCString(name) && CatEnds(v, name)
    requires Named(a, name).Some? ==>
      var n, x := a.tree[In(a.cwd, Named(a, name).value)], EntryAt(v.Directory(), Named(a, name).value).cluster;
      n.File? ==> n.pieces == TextsFrom(v.disk, x)
    ensures !ShowsFolder(a, Cat(name)) ==> CatFile(v, name) == Perform(a, Cat(name)).1
    ensures ShowsFolder(a, Cat(name)) ==>
      CatFile(v, name) == Shown(TextsFrom(v.disk, EntryAt(v.Directory(), Named(a, name).value).cluster))
  {
  }

  /** The answer of a call on the disk is that of the abstract call; for a directory shown as text, it is the
      texts of the clusters of the directory that the path leads to. */
  ghost predicate Agrees(v: Volume, a: FileSystem, c: Command)
    requires v.Valid() && Proper(c)
  {
    && (c.Cat? ==> CatEnds(v, c.name))
    && if !ShowsFolder(a, c) then ReplyTo(v, c) == Perform(a, c).1
       else ShowsDirectory(v, In(a.cwd, Named(a, c.name).value), ReplyTo(v, c))
  }

  ghost predicate ShowsDirectory(v: Volume, l: Path, r: Reply) {
    var x := Resolve(v.disk, l);
    x.Some? && Ends(v.disk, x.value) && r == Shown(TextsFrom(v.disk, x.value))
  }

  lemma CatAgrees(v: Volume, a: FileSystem, name: seq<byte>)
    requires Represents(v, a) && Proper(Cat(name))
    ensures CatEnds(v, name)
    ensures !ShowsFolder(a, Cat(name)) ==> CatFile(v, name) == Perform(a, Cat(name)).1
    ensures ShowsFolder(a, Cat(name)) ==> ShowsDirectory(v, In(a.cwd, Named(a, name).value), CatFile(v, name))
  {
    NamedAgrees(v, a, name);
    if Named(a, name).Some? {
      var l := In(a.cwd, Named(a, name).value);
      ChainIsWalk(v.disk, At(v.disk, l).cluster);
      if At(v.disk, l).IsDirectory() {
        DirectoryResolves(v.disk, l);
      }
    }
    CatUnfolds(v, a, name);
  }

  /** The calls on the disk, one by one. */
  lemma CallUnfolds(v: Volume, c: Command)
    requires v.Valid() && Proper(c)
    ensures c.Write? ==> (Next(v, c), ReplyTo(v, c)) == WriteFile(v, c.name, c.content)
    ensures c.Mkdir? ==> (Next(v, c), ReplyTo(v, c)) == MakeDirectory(v, c.name)
    ensures c.Cd? ==> (Next(v, c), ReplyTo(v, c)) == ChangeDirectory(v, c.name)
    ensures c.Rm? ==> (Next(v, c), ReplyTo(v, c)) == RemoveFile(v, c.name)
    ensures c.Cat? ==> Next(v, c) == v
  {
  }

  lemma CallAgrees(v: Volume, a: FileSystem, c: Command)
    requires Represents(v, a) && Proper(c) && !c.Cat?
    ensures Represents(Next(v, c), Perform(a, c).0) && ReplyTo(v, c) == Perform(a, c).1
  {
    CallUnfolds(v, c);
    match c
    case Write(name, content) => WriteAgrees(v, a, name, content);
    case Mkdir(name) => MakeAgrees(v, a, name);
    case Cd(name) => ChangeAgrees(v, a, name);
    case Rm(name) => RemoveAgrees(v, a, name);
  }

  lemma CatKeeps(v: Volume, a: FileSystem, c: Command)
    requires v.Valid() && Proper(c) && c.Cat?
    ensures Next(v, c) == v && Perform(a, c).0 == a
  {
  }

  /** Main theorem, one call: the disk goes where the abstract file system goes and gives its answer. */
  lemma StepSimulates(v: Volume, a: FileSystem, c: Command)
    requires Represents(v, a) && Proper(c)
    ensures Represents(Next(v, c), Perform(a, c).0) && Agrees(v, a, c)
  {
    if c.Cat? {
      CatAgrees(v, a, c.name);
      CatKeeps(v, a, c);
    } else {
      CallAgrees(v, a, c);
    }
  }

  // ----- over every run

  /** The ownership invariant, with a current directory that is reachable from the root. */
  ghost predicate Safe(v: Volume) {
    v.Valid() && Sound(v.disk) && exists p :: Resolve(v.disk, p) == Some(v.cwd)
  }

  lemma SafeRepresents(v: Volume) returns (a: FileSystem)
    requires Safe(v)
    ensures Represents(v, a)
  {
    var p :| Resolve(v.disk, p) == Some(v.cwd);
    a := FileSystem(View(v.disk), p, |FreeClusters(Table(v.disk))|);
  }

  lemma StepKeepsSafe(v: Volume, c: Command)
    requires Safe(v) && Proper(c)
    ensures Safe(Next(v, c))
  {
    var a := SafeRepresents(v);
    StepSimulates(v, a, c);
  }

  lemma SafeCatEnds(v: Volume, c: Command)
    requires Safe(v) && Proper(c)
    ensures c.Cat? ==> CatEnds(v, c.name)
  {
    var a := SafeRepresents(v);
    StepSimulates(v, a, c);
  }

  /** What a call answers on a safe disk. */
  ghost function Answer(v: Volume, c: Command): Reply
    requires Safe(v) && Proper(c)
  {
    SafeCatEnds(v, c);
    ReplyTo(v, c)
  }

  ghost function Run(v: Volume, cs: seq<Command>): (w: Volume)
    requires Safe(v) && forall c :: c in cs ==> Proper(c)
    ensures Safe(w)
    decreases |cs|
  {
    if cs == [] then v
    else
      assert cs[0] in cs;
      StepKeepsSafe(v, cs[0]);
      Run(Next(v, cs[0]), cs[1..])
  }

  ghost function RunAbstract(a: FileSystem, cs: seq<Command>): FileSystem
    requires forall c :: c in cs ==> Proper(c)
    decreases |cs|
  {
    if cs == [] then a else assert cs[0] in cs; RunAbstract(Perform(a, cs[0]).0, cs[1..])
  }

  /** Before every call of a run, and after the last, the disk stands for the abstract state, and every call
      gives the abstract answer. */
  ghost predicate InStep(v: Volume, a: FileSystem, cs: seq<Command>)
    requires forall c :: c in cs ==> Proper(c)
    decreases |cs|
  {
    && Represents(v, a)
    && (cs == [] || (assert cs[0] in cs; Agrees(v, a, cs[0]) && InStep(Next(v, cs[0]), Perform(a, cs[0]).0, cs[1..])))
  }

  /** Main theorem, every run. */
  lemma {:induction false} RunSimulates(v: Volume, a: FileSystem, cs: seq<Command>)
    requires Represents(v, a) && forall c :: c in cs ==> Proper(c)
    ensures InStep(v, a, cs)
    ensures Safe(v) && Represents(Run(v, cs), RunAbstract(a, cs))
    decreases |cs|
  {
    if cs != [] {
      assert cs[0] in cs;
      StepSimulates(v, a, cs[0]);
      RunSimulates(Next(v, cs[0]), Perform(a, cs[0]).0, cs[1..]);
    }
  }

  lemma {:induction false} CountClusters(f: fat, n: nat)
    requires 2 <= n <= 256 && forall x: u16 :: x < 256 ==> f[x] == (if x < n then FREE else LAST_CLUSTER)
    ensures |FreeClusters(f)| == n - 2
    decreases n
  {
    if n == 2 {
      assert FreeClusters(f) == {};
    } else {
      var g := f[n - 1 := LAST_CLUSTER];
      CountClusters(g, n - 1);
      assert FreeClusters(f) == FreeClusters(g) + {n - 1};
    }
  }

  lemma {:induction false} BlankHoldsNothing(d: disk, p: Path)
    requires Blank(d)
    ensures !Occupied(d, p) && (p.In? ==> Resolve(d, p) == None)
  {
    if p.In? {
      BlankHoldsNothing(d, p.dir);
      ZeroEntry(p.slot);
    }
  }

  lemma BlankSound(d: disk)
    requires Blank(d)
    ensures Sound(d) && View(d) == imap[]
  {
    forall p: Path
      ensures !Occupied(d, p) && (p.In? ==> Resolve(d, p) == None)
    {
      BlankHoldsNothing(d, p);
    }
    forall i: slot
      ensures EntryAt(d[ROOT_SECTOR], i).name[0] == END_MARK
    {
      ZeroEntry(i);
    }
    SameTree(View(d), imap[]);
  }

  /** A disk whose FAT and root are zero is the empty file system with 254 free clusters. */
  lemma BlankRepresents(d: disk)
    requires Blank(d)
    ensures Represents(Volume(d, 0), EmptyFileSystem())
  {
    BlankSound(d);
    CountClusters(Table(d), 256);
  }

  lemma BlankSafe(d: disk)
    requires Blank(d)
    ensures Safe(Volume(d, 0))
  {
    BlankRepresents(d);
    assert Resolve(d, Root) == Some(0);
  }

  /** From such a disk, along every run: entries own disjoint chains, directories form a tree, the current
      directory is reachable, and every call answers as the abstract file system does. */
  lemma EveryRunIsSafe(d: disk, cs: seq<Command>)
    requires Blank(d) && forall c :: c in cs ==> Proper(c)
    ensures InStep(Volume(d, 0), EmptyFileSystem(), cs)
    ensures Safe(Volume(d, 0)) && Safe(Run(Volume(d, 0), cs))
    ensures Represents(Run(Volume(d, 0), cs), RunAbstract(EmptyFileSystem(), cs))
  {
    BlankRepresents(d);
    RunSimulates(Volume(d, 0), EmptyFileSystem(), cs);
  }
}
