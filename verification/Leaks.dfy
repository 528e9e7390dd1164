/** Which clusters are lost: allocated, but on the chain of no entry that can be reached. */
module Leaks {
  import opened Bytes
  import opened Layout
  import opened Chains
  import opened Tree
  import opened Volume
  import opened Creation
  import opened Removal
  import opened Simulation
  import opened Consequences

  ghost predicate Owned(d: disk, x: u16)
    requires AllChained(d)
  {
    exists l: Path :: Occupied(d, l) && x in ChainAt(d, l)
  }

  ghost function Leaked(d: disk): set<u16>
    requires AllChained(d)
  {
    set x: u16 | 2 <= x < 256 && Table(d)[x] != FREE && !Owned(d, x)
  }

  // ----- a removal

  /** Inside the directory at m. */
  predicate Within(l: Path, m: Path) {
    Under(l, m) && l != m
  }

  /** The clusters of the entries inside the directory at m. */
  ghost function Below(d: disk, m: Path): set<u16>
    requires AllChained(d)
  {
    set x: u16 | 2 <= x < 256 && OwnedWithin(d, m, x)
  }

  ghost predicate OwnedWithin(d: disk, m: Path, x: u16)
    requires AllChained(d)
  {
    exists l: Path :: Occupied(d, l) && Within(l, m) && x in ChainAt(d, l)
  }

  /** Exactly the owners outside the removed subtree are left. */
  lemma OwnedAfterCut(d: disk, d': disk, p: Path, k: slot, x: u16)
    requires Cut(d, d', p, k) && AllChained(d')
    ensures Owned(d', x) <==> exists l: Path :: Occupied(d, l) && !Under(l, In(p, k)) && x in ChainAt(d, l)
  {
    forall l: Path | Occupied(d', l)
      ensures Occupied(d, l) && !Under(l, In(p, k)) && ChainAt(d', l) == ChainAt(d, l)
    {
      CutChain(d, d', p, k, l);
    }
    forall l: Path | Occupied(d, l) && !Under(l, In(p, k))
      ensures Occupied(d', l) && ChainAt(d', l) == ChainAt(d, l)
    {
      CutPlaces(d, d', p, k, l);
      CutChain(d, d', p, k, l);
    }
  }

  /** A cluster has one owner, and is allocated. */
  lemma OneOwner(d: disk, l: Path, m: Path, x: u16)
    requires Sound(d) && Occupied(d, l) && Occupied(d, m) && x in ChainAt(d, l) && x in ChainAt(d, m)
    ensures l == m && InRange(x) && Table(d)[x] != FREE
  {
    OnChainAllocated(Table(d), At(d, l).cluster, x);
    assert l != m ==> Apart(ChainAt(d, l), ChainAt(d, m));
  }

  /** After the removal a cluster of l has an owner exactly if l is outside the removed subtree. */
  lemma OwnerAfterCut(d: disk, d': disk, p: Path, k: slot, l: Path, x: u16)
    requires Cut(d, d', p, k) && AllChained(d') && Occupied(d, l) && x in ChainAt(d, l)
    ensures Owned(d', x) <==> !Under(l, In(p, k))
    ensures OwnedWithin(d, In(p, k), x) <==> Within(l, In(p, k))
    ensures x in ChainAt(d, In(p, k)) <==> l == In(p, k)
    ensures InRange(x) && Table(d)[x] != FREE
  {
    OwnedAfterCut(d, d', p, k, x);
    forall j: Path | Occupied(d, j) && x in ChainAt(d, j)
      ensures j == l
    {
      OneOwner(d, l, j, x);
    }
    OneOwner(d, l, l, x);
  }

  lemma RemovalLeaksOne(d: disk, d': disk, p: Path, k: slot, x: u16)
    requires Cut(d, d', p, k) && AllChained(d') && InRange(x)
    requires Table(d')[x] == if x in ChainAt(d, In(p, k)) then FREE else Table(d)[x]
    ensures x in Leaked(d') <==> x in Leaked(d) || x in Below(d, In(p, k))
  {
    OwnedAfterCut(d, d', p, k, x);
    if Owned(d, x) {
      var l: Path :| Occupied(d, l) && x in ChainAt(d, l);
      OwnerAfterCut(d, d', p, k, l, x);
    }
  }

  /** A removal loses exactly the clusters of what was inside. */
  lemma RemovalLeaks(d: disk, d': disk, p: Path, k: slot)
    requires Cut(d, d', p, k) && Table(d') == Freed(Table(d), At(d, In(p, k)).cluster)
    ensures AllChained(d') && Leaked(d') == Leaked(d) + Below(d, In(p, k))
  {
    CutSound(d, d', p, k);
    ChainReached(Table(d), At(d, In(p, k)).cluster);
    forall x: u16 | InRange(x)
      ensures x in Leaked(d') <==> x in Leaked(d) || x in Below(d, In(p, k))
    {
      RemovalLeaksOne(d, d', p, k, x);
    }
  }

  lemma {:induction false} ChildAbove(d: disk, m: Path, l: Path) returns (i: slot)
    requires Occupied(d, l) && Within(l, m) && m.In?
    ensures Occupied(d, In(m, i))
  {
    if l.dir == m {
      i := l.slot;
    } else {
      UnderIsDeeper(l.dir, m);
      ResolveOccupied(d, l.dir);
      i := ChildAbove(d, m, l.dir);
    }
  }

  ghost predicate HoldsEntries(d: disk, m: Path) {
    exists i: slot :: Occupied(d, In(m, i))
  }

  /** There is nothing to lose exactly if the directory has no entry, as no file has. */
  lemma BelowEmpty(d: disk, m: Path)
    requires Sound(d) && m.In?
    ensures Below(d, m) == {} <==> !HoldsEntries(d, m)
    ensures Below(d, m) !! Leaked(d)
  {
    if HoldsEntries(d, m) {
      var i: slot :| Occupied(d, In(m, i));
      var x := At(d, In(m, i)).cluster;
      assert ChainAt(d, In(m, i))[0] == x;
      OnChainAllocated(Table(d), x, x);
      UnderIsOther(m, i);
      assert x in Below(d, m);
    } else if Below(d, m) != {} {
      var x :| x in Below(d, m);
      var l: Path :| Occupied(d, l) && Within(l, m) && x in ChainAt(d, l);
      var i := ChildAbove(d, m, l);
      assert false;
    }
  }

  lemma UnderIsOther(m: Path, i: slot)
    ensures Within(In(m, i), m)
  {
    NotInItself(m, i);
  }

  lemma MarkingLeaksOne(d: disk, d': disk, p: Path, k: slot, x: u16)
    requires Cut(d, d', p, k) && AllChained(d') && InRange(x) && Table(d') == Table(d)
    ensures x in Leaked(d') <==> x in Leaked(d) || x in ChainAt(d, In(p, k)) || x in Below(d, In(p, k))
  {
    OwnedAfterCut(d, d', p, k, x);
    if Owned(d, x) {
      var l: Path :| Occupied(d, l) && x in ChainAt(d, l);
      OwnerAfterCut(d, d', p, k, l, x);
    }
  }

  /** Between the two writes of rm its own chain is lost too. */
  lemma MarkingLeaks(d: disk, d': disk, p: Path, k: slot)
    requires Cut(d, d', p, k) && Table(d') == Table(d)
    ensures AllChained(d')
    ensures Leaked(d') == Leaked(d) + Clusters(ChainAt(d, In(p, k))) + Below(d, In(p, k))
  {
    CutSound(d, d', p, k);
    forall x: u16
      ensures x in Leaked(d') <==> x in Leaked(d) || x in ChainAt(d, In(p, k)) || x in Below(d, In(p, k))
    {
      if InRange(x) {
        MarkingLeaksOne(d, d', p, k, x);
      }
    }
  }

  /** After both writes of rm: nothing is lost if and only if the entry has none inside. */
  lemma RemovingLeaks(d: disk, p: Path, k: slot)
    requires Sound(d) && Occupied(d, In(p, k))
    ensures var d' := FreeClustersFrom(MarkDeleted(d, Resolve(d, p).value, k), At(d, In(p, k)).cluster);
      && AllChained(d') && Leaked(d') == Leaked(d) + Below(d, In(p, k))
      && (Leaked(d') == Leaked(d) <==> !HoldsEntries(d, In(p, k)))
  {
    var d' := FreeClustersFrom(MarkDeleted(d, Resolve(d, p).value, k), At(d, In(p, k)).cluster);
    RemovedCuts(d, p, k);
    RemovalLeaks(d, d', p, k);
    BelowEmpty(d, In(p, k));
    assert Below(d, In(p, k)) == Leaked(d') - Leaked(d);
  }

  // ----- a creation

  lemma OwnedAfterGrowth(d: disk, d': disk, p: Path, k: slot, e: Entry, body: sector, x: u16)
    requires Grown(d, d', p, k, e, body) && AllChained(d')
    ensures Owned(d', x) <==> Owned(d, x) || (e.Live() && x == e.cluster)
    ensures !Owned(d, e.cluster)
  {
    forall l: Path
      ensures Occupied(d', l) <==> Occupied(d, l) || (l == In(p, k) && e.Live())
      ensures Occupied(d, l) ==> ChainAt(d', l) == ChainAt(d, l) && e.cluster !in ChainAt(d, l)
    {
      LinkedPlaces(d, d', p, k, e, l);
      if Occupied(d, l) {
        OldChain(d, d', p, k, e, body, l);
      }
    }
    if e.Live() {
      NewPlace(d, d', p, k, e, body);
    }
  }

  /** A creation loses its cluster exactly if the new entry is not live. */
  lemma GrowthLeaks(d: disk, d': disk, p: Path, k: slot, e: Entry, body: sector)
    requires Grown(d, d', p, k, e, body)
    ensures AllChained(d') && e.cluster !in Leaked(d)
    ensures Leaked(d') == if e.Live() then Leaked(d) else Leaked(d) + {e.cluster}
  {
    GrownChained(d, d', p, k, e, body);
    forall x: u16 | InRange(x)
      ensures x in Leaked(d') <==> x in Leaked(d) || (x == e.cluster && !e.Live())
    {
      OwnedAfterGrowth(d, d', p, k, e, body, x);
    }
  }

  // ----- the calls

  /** What a caller can check before the call: there is room for a name that begins with the deletion mark, or the
      entry to be removed is a directory with a live entry. */
  ghost predicate Loses(v: Volume, c: Command)
    requires v.Valid() && Proper(c)
  {
    match c
    case Write(_, _) => HasRoom(v) && NodeOf(c).name[0] == DELETED_MARK
    case Mkdir(_) => HasRoom(v) && NodeOf(c).name[0] == DELETED_MARK
    case Rm(name) => Find(v, name).Some? && NonEmptyDirectory(v.disk, EntryAt(v.Directory(), Find(v, name).value))
    case _ => false
  }

  ghost predicate NonEmptyDirectory(d: disk, e: Entry) {
    e.IsDirectory() && InRange(e.cluster) && exists i: slot :: Slot(d, e.cluster, i).Live()
  }

  lemma HoldsIsNonEmpty(d: disk, m: Path)
    requires AllChained(d) && Occupied(d, m)
    ensures HoldsEntries(d, m) <==> NonEmptyDirectory(d, At(d, m))
  {
    if At(d, m).IsDirectory() {
      DirectoryResolves(d, m);
      if NonEmptyDirectory(d, At(d, m)) {
        var i: slot :| Slot(d, At(d, m).cluster, i).Live();
        assert Occupied(d, In(m, i));
      }
    }
  }

  lemma AddingLeaks(v: Volume, a: FileSystem, c: Command)
    requires Represents(v, a) && Proper(c) && (c.Write? || c.Mkdir?)
    ensures AllChained(Next(v, c).disk) && Leaked(v.disk) <= Leaked(Next(v, c).disk)
    ensures Leaked(Next(v, c).disk) == Leaked(v.disk) <==> !Loses(v, c)
  {
    StoredIfRoom(v, c);
    if ReplyTo(v, c) == Stored {
      var k, e, body := AddingGrows(v, a, c);
      GrowthLeaks(v.disk, Next(v, c).disk, a.cwd, k, e, body);
    } else {
      AddingTakesOneCluster(v, c);
    }
  }

  lemma RmUnfolds(v: Volume, name: seq<byte>)
    requires v.Valid() && IsCString(name)
    ensures Find(v, name) == None ==> Next(v, Rm(name)) == v && !Loses(v, Rm(name))
    ensures Find(v, name).Some? ==>
      var k := Find(v, name).value;
      && Next(v, Rm(name)) == RemoveEntry(v, k)
      && (Loses(v, Rm(name)) <==> NonEmptyDirectory(v.disk, EntryAt(v.Directory(), k)))
  {
  }

  lemma RmLeaks(v: Volume, a: FileSystem, name: seq<byte>)
    requires Represents(v, a) && IsCString(name)
    ensures AllChained(Next(v, Rm(name)).disk) && Leaked(v.disk) <= Leaked(Next(v, Rm(name)).disk)
    ensures Leaked(Next(v, Rm(name)).disk) == Leaked(v.disk) <==> !Loses(v, Rm(name))
  {
    NamedAgrees(v, a, name);
    RmUnfolds(v, name);
    if Find(v, name).Some? {
      var k := Find(v, name).value;
      RemovingLeaks(v.disk, a.cwd, k);
      HoldsIsNonEmpty(v.disk, In(a.cwd, k));
    }
  }

  lemma KeepsDisk(v: Volume, c: Command)
    requires v.Valid() && Proper(c) && (c.Cd? || c.Cat?)
    ensures Next(v, c).disk == v.disk && !Loses(v, c)
  {
  }

  lemma CallLeaks(v: Volume, a: FileSystem, c: Command)
    requires Represents(v, a) && Proper(c)
    ensures AllChained(Next(v, c).disk) && Leaked(v.disk) <= Leaked(Next(v, c).disk)
    ensures Leaked(Next(v, c).disk) == Leaked(v.disk) <==> !Loses(v, c)
  {
    match c
    case Write(_, _) => AddingLeaks(v, a, c);
    case Mkdir(_) => AddingLeaks(v, a, c);
    case Rm(name) => RmLeaks(v, a, name);
    case Cd(_) => KeepsDisk(v, c);
    case Cat(_) => KeepsDisk(v, c);
  }

  /** No call recovers a lost cluster, and a call loses none if and only if the condition above does not hold. */
  lemma StepLeaks(v: Volume, c: Command)
    requires Safe(v) && Proper(c)
    ensures Safe(Next(v, c)) && Leaked(v.disk) <= Leaked(Next(v, c).disk)
    ensures Leaked(Next(v, c).disk) == Leaked(v.disk) <==> !Loses(v, c)
  {
    var a := SafeRepresents(v);
    StepKeepsSafe(v, c);
    CallLeaks(v, a, c);
  }

  // ----- the runs

  ghost predicate NeverLoses(v: Volume, cs: seq<Command>)
    requires Safe(v) && forall c :: c in cs ==> Proper(c)
    decreases |cs|
  {
    cs == [] ||
    (assert cs[0] in cs;
     StepKeepsSafe(v, cs[0]);
     !Loses(v, cs[0]) && NeverLoses(Next(v, cs[0]), cs[1..]))
  }

  lemma {:induction false} RunLeaks(v: Volume, cs: seq<Command>)
    requires Safe(v) && forall c :: c in cs ==> Proper(c)
    ensures Leaked(v.disk) <= Leaked(Run(v, cs).disk)
    ensures Leaked(Run(v, cs).disk) == Leaked(v.disk) <==> NeverLoses(v, cs)
    decreases |cs|
  {
    if cs != [] {
      assert cs[0] in cs;
      StepLeaks(v, cs[0]);
      RunLeaks(Next(v, cs[0]), cs[1..]);
    }
  }

  /** From a disk with a zero FAT and root: after a run every allocated cluster belongs to a reachable entry if and
      only if no call of the run met the condition. */
  lemma NothingIsLost(d: disk, cs: seq<Command>)
    requires Blank(d) && forall c :: c in cs ==> Proper(c)
    ensures Safe(Volume(d, 0))
    ensures Leaked(Run(Volume(d, 0), cs).disk) == {} <==> NeverLoses(Volume(d, 0), cs)
  {
    BlankSafe(d);
    RunLeaks(Volume(d, 0), cs);
    assert Leaked(d) == {};
  }

  // ----- a run that loses a cluster

  lemma RunStep(a: FileSystem, c: Command, rest: seq<Command>)
    requires Proper(c) && forall x :: x in rest ==> Proper(x)
    ensures RunAbstract(a, [c] + rest) == RunAbstract(Perform(a, c).0, rest)
  {
    assert ([c] + rest)[1..] == rest;
  }

  /** The name of the only directory, in slot 0 of the root. */
  lemma OnlyDirectory(t: tree, free: nat, dir: seq<byte>)
    requires IsAscii(Pad(dir, 8)) && In(Root, 0) in t && t[In(Root, 0)] == Folder(Pad(dir, 8), BLANK_EXT, 1)
    ensures Named(FileSystem(t, Root, free), dir) == Some(0)
  {
    MatchesExactly(Pad(dir, 8), Pad(dir, 8));
  }

  lemma RootNames()
    ensures Ascii("/") == SLASH && Ascii("..") == DOTS
  {
  }

  /** Making a directory in the empty file system and entering it. */
  lemma MakeAndEnter(dir: seq<byte>)
    requires IsCString(dir) && IsAscii(Pad(dir, 8)) && dir != Ascii("/") && dir != Ascii("..")
    ensures var t := imap[In(Root, 0) := Folder(Pad(dir, 8), BLANK_EXT, 1)];
      && Perform(EmptyFileSystem(), Mkdir(dir)).0 == FileSystem(t, Root, 253)
      && Perform(FileSystem(t, Root, 253), Cd(dir)).0 == FileSystem(t, In(Root, 0), 253)
  {
    var a, n := EmptyFileSystem(), Folder(Pad(dir, 8), BLANK_EXT, 1);
    var t: tree := imap[In(Root, 0) := n];
    assert n.name[0] in Pad(dir, 8);
    assert FirstFree(a.tree, Root, 0) == Some(0);
    RootNames();
    SameTree(a.tree[In(Root, 0) := n], t);
    OnlyDirectory(t, 253, dir);
  }

  /** Writing a file in that directory, going back to the root, and removing the directory. */
  lemma WriteAndRemove(dir: seq<byte>, file: seq<byte>, content: seq<byte>)
    requires IsCString(dir) && IsAscii(Pad(dir, 8))
    requires Proper(Write(file, content)) && file[0] != DELETED_MARK
    ensures var t: tree := imap[In(Root, 0) := Folder(Pad(dir, 8), BLANK_EXT, 1)];
      var u := t[In(In(Root, 0), 0) := NodeOf(Write(file, content))];
      && Perform(FileSystem(t, In(Root, 0), 253), Write(file, content)).0 == FileSystem(u, In(Root, 0), 252)
      && Perform(FileSystem(u, In(Root, 0), 252), Cd(Ascii(".."))).0 == FileSystem(u, Root, 252)
      && Perform(FileSystem(u, Root, 252), Rm(dir)).0 == FileSystem(imap[], Root, 253)
  {
    var t: tree := imap[In(Root, 0) := Folder(Pad(dir, 8), BLANK_EXT, 1)];
    var u := t[In(In(Root, 0), 0) := NodeOf(Write(file, content))];
    assert FirstFree(t, In(Root, 0), 0) == Some(0);
    RootNames();
    OnlyDirectory(u, 252, dir);
    SameTree(Pruned(u, In(Root, 0)), imap[]);
  }

  function LosingRun(dir: seq<byte>, file: seq<byte>, content: seq<byte>): seq<Command> {
    [Mkdir(dir)] + ([Cd(dir)] + ([Write(file, content)] + ([Cd(Ascii(".."))] + ([Rm(dir)] + []))))
  }

  lemma LosingRunEnds(dir: seq<byte>, file: seq<byte>, content: seq<byte>)
    requires IsCString(dir) && IsAscii(Pad(dir, 8)) && dir != Ascii("/") && dir != Ascii("..")
    requires Proper(Write(file, content)) && file[0] != DELETED_MARK
    ensures forall c :: c in LosingRun(dir, file, content) ==> Proper(c)
    ensures RunAbstract(EmptyFileSystem(), LosingRun(dir, file, content)) == FileSystem(imap[], Root, 253)
  {
    MakeAndEnter(dir);
    WriteAndRemove(dir, file, content);
    var t: tree := imap[In(Root, 0) := Folder(Pad(dir, 8), BLANK_EXT, 1)];
    var u := t[In(In(Root, 0), 0) := NodeOf(Write(file, content))];
    var last := [Rm(dir)] + [];
    RunStep(FileSystem(u, Root, 252), Rm(dir), []);
    RunStep(FileSystem(u, In(Root, 0), 252), Cd(Ascii("..")), last);
    RunStep(FileSystem(t, In(Root, 0), 253), Write(file, content), [Cd(Ascii(".."))] + last);
    RunStep(FileSystem(t, Root, 253), Cd(dir), [Write(file, content)] + ([Cd(Ascii(".."))] + last));
    RunStep(EmptyFileSystem(), Mkdir(dir), [Cd(dir)] + ([Write(file, content)] + ([Cd(Ascii(".."))] + last)));
  }

  lemma AllFree(f: fat)
    requires forall c: u16 :: InRange(c) ==> f[c] == FREE
    ensures |FreeClusters(f)| == 254
  {
    var g: fat := seq(256, i => FREE);
    CountClusters(g, 256);
    assert FreeClusters(f) == FreeClusters(g);
  }

  lemma EmptyTreeLeaks(v: Volume)
    requires Represents(v, FileSystem(imap[], Root, 253))
    ensures Leaked(v.disk) != {}
  {
    var f := Table(v.disk);
    if forall c: u16 :: InRange(c) ==> f[c] == FREE {
      AllFree(f);
      assert false;
    }
    var c: u16 :| InRange(c) && f[c] != FREE;
    forall l: Path
      ensures !Occupied(v.disk, l)
    {
      assert l !in View(v.disk);
    }
    assert c in Leaked(v.disk);
  }

  /** Making a directory, writing any file in it and removing the directory loses a cluster. */
  lemma RemovedDirectoryIsLost(d: disk, dir: seq<byte>, file: seq<byte>, content: seq<byte>)
    requires Blank(d) && IsCString(dir) && IsAscii(Pad(dir, 8)) && dir != Ascii("/") && dir != Ascii("..")
    requires Proper(Write(file, content)) && file[0] != DELETED_MARK
    ensures Safe(Volume(d, 0)) && forall c :: c in LosingRun(dir, file, content) ==> Proper(c)
    ensures Leaked(Run(Volume(d, 0), LosingRun(dir, file, content)).disk) != {}
  {
    LosingRunEnds(dir, file, content);
    EveryRunIsSafe(d, LosingRun(dir, file, content));
    EmptyTreeLeaks(Run(Volume(d, 0), LosingRun(dir, file, content)));
  }

  /** A node whose name begins with the deletion mark does not show. */
  lemma DeletedDoesNotShow(a: FileSystem, n: Node)
    requires |n.name| == 8 && n.name[0] == DELETED_MARK
    ensures Add(a, n).0.tree == a.tree
  {
  }

  lemma DeletedLoses(v: Volume, name: seq<byte>, content: seq<byte>)
    requires v.Valid() && Proper(Write(name, content)) && name[0] == DELETED_MARK
    requires ReplyTo(v, Write(name, content)) == Stored
    ensures Loses(v, Write(name, content))
  {
    StoredIfRoom(v, Write(name, content));
  }

  /** So does a file whose name begins with the deletion mark, and the tree does not show it. */
  lemma DeletedNameIsLost(d: disk, name: seq<byte>, content: seq<byte>)
    requires Blank(d) && Proper(Write(name, content)) && name[0] == DELETED_MARK
    ensures Safe(Volume(d, 0)) && Safe(Next(Volume(d, 0), Write(name, content)))
    ensures Leaked(Next(Volume(d, 0), Write(name, content)).disk) != {}
    ensures View(Next(Volume(d, 0), Write(name, content)).disk) == imap[]
  {
    var v, c := Volume(d, 0), Write(name, content);
    BlankRepresents(d);
    FirstWriteIsStored(d, name, content, []);
    DeletedLoses(v, name, content);
    StepLeaks(v, c);
    StepSimulates(v, EmptyFileSystem(), c);
    assert Perform(EmptyFileSystem(), c) == Add(EmptyFileSystem(), NodeOf(c));
    DeletedDoesNotShow(EmptyFileSystem(), NodeOf(c));
  }
}
