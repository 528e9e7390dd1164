/** What follows for a user of the file system: conservation of space, frame properties, reading back and undoing
    a write. */
module Consequences {
  import opened Bytes
  import opened Layout
  import opened Chains
  import opened Tree
  import opened Volume
  import opened Creation
  import opened Removal
  import opened Simulation

  // ----- conservation of clusters

  ghost function FreeSpace(v: Volume): nat {
    |FreeClusters(Table(v.disk))|
  }

  lemma AddingCost(v: Volume, a: FileSystem, c: Command)
    requires v.Valid() && Proper(c) && (c.Write? || c.Mkdir?)
    requires FreeSlotFrom(v.Directory(), 0) == FirstFree(a.tree, a.cwd, 0)
    requires FreeClusterFrom(Table(v.disk), 2) == 0 <==> a.free == 0
    ensures if ReplyTo(v, c) == Stored then a.free > 0 && Perform(a, c).0.free == a.free - 1 else Next(v, c) == v
  {
  }

  /** Each stored file or directory takes exactly one cluster; a call that fails leaves the whole disk as it was. */
  lemma AddingTakesOneCluster(v: Volume, c: Command)
    requires Safe(v) && Proper(c) && (c.Write? || c.Mkdir?)
    ensures if ReplyTo(v, c) == Stored then FreeSpace(Next(v, c)) == FreeSpace(v) - 1 else Next(v, c) == v
  {
    var a := SafeRepresents(v);
    RoomAgrees(v, a);
    StepSimulates(v, a, c);
    AddingCost(v, a, c);
  }

  /** d' differs from d in that exactly the chain from c was freed. */
  ghost predicate FreesChain(d: disk, d': disk, c: u16) {
    && Chained(Table(d), c) && Table(d') == Freed(Table(d), c)
    && (forall x :: Reached(Table(d), c, x) <==> x in Chain(Table(d), c))
    && |FreeClusters(Table(d'))| == |FreeClusters(Table(d))| + |Chain(Table(d), c)|
  }

  lemma RemovedTable(v: Volume, a: FileSystem, k: slot)
    requires Represents(v, a) && Occupied(v.disk, In(a.cwd, k))
    ensures FreesChain(v.disk, RemoveEntry(v, k).disk, At(v.disk, In(a.cwd, k)).cluster)
  {
    var c := At(v.disk, In(a.cwd, k)).cluster;
    RemovedCuts(v.disk, a.cwd, k);
    FreeChain(Table(v.disk), c);
    ChainReached(Table(v.disk), c);
  }

  /** A removal frees exactly the chain of the entry it finds, and changes nothing if it finds none. */
  lemma RemovingFreesTheChain(v: Volume, name: seq<byte>)
    requires Safe(v) && IsCString(name)
    ensures Find(v, name) == None ==> Next(v, Rm(name)) == v
    ensures Find(v, name).Some? ==>
      FreesChain(v.disk, Next(v, Rm(name)).disk, EntryAt(v.Directory(), Find(v, name).value).cluster)
  {
    var a := SafeRepresents(v);
    NamedAgrees(v, a, name);
    RemoveUnfolds(v, a, name);
    CallUnfolds(v, Rm(name));
    if Named(a, name).Some? {
      RemovedTable(v, a, Named(a, name).value);
    }
  }

  // ----- frame: other names keep their contents

  /** The directory at q made current. */
  function AtDirectory(v: Volume, q: Path): Volume
    requires Resolve(v.disk, q).Some?
  {
    Volume(v.disk, Resolve(v.disk, q).value)
  }

  lemma AtDirectoryRepresents(v: Volume, q: Path)
    requires Sound(v.disk) && Resolve(v.disk, q).Some?
    ensures Represents(AtDirectory(v, q), FileSystem(View(v.disk), q, FreeSpace(v)))
  {
  }

  /** What cat answers in the directory at q. */
  ghost function TextIn(v: Volume, q: Path, name: seq<byte>): Reply
    requires Sound(v.disk) && Resolve(v.disk, q).Some? && IsCString(name)
  {
    AtDirectoryRepresents(v, q);
    CatAgrees(AtDirectory(v, q), FileSystem(View(v.disk), q, FreeSpace(v)), name);
    CatFile(AtDirectory(v, q), name)
  }

  /** The name is that of a file in the directory at q, or of nothing. */
  ghost predicate NoFolder(t: tree, q: Path, name: seq<byte>) {
    var r := Lookup(t, q, Pad(name, 8), 0);
    r.Some? ==> t[In(q, r.value)].File?
  }

  ghost function TextNamed(t: tree, q: Path, name: seq<byte>): Reply
    requires NoFolder(t, q, name)
  {
    var r := Lookup(t, q, Pad(name, 8), 0);
    if r == None then NotFound else Shown(t[In(q, r.value)].pieces)
  }

  lemma CatText(a: FileSystem, name: seq<byte>)
    requires IsCString(name) && NoFolder(a.tree, a.cwd, name)
    ensures !ShowsFolder(a, Cat(name)) && Perform(a, Cat(name)).1 == TextNamed(a.tree, a.cwd, name)
  {
  }

  lemma TextInView(v: Volume, q: Path, name: seq<byte>)
    requires Sound(v.disk) && Resolve(v.disk, q).Some? && IsCString(name) && NoFolder(View(v.disk), q, name)
    ensures TextIn(v, q, name) == TextNamed(View(v.disk), q, name)
  {
    var a := FileSystem(View(v.disk), q, FreeSpace(v));
    AtDirectoryRepresents(v, q);
    CatText(a, name);
    CatAgrees(AtDirectory(v, q), a, name);
  }

  lemma {:induction false} LookupAdded(t: tree, l: Path, n: Node, q: Path, padded: seq<byte>, i: nat)
    requires l !in t && i <= 16 && |padded| == 8
    requires |n.name| == 8 && l.In? && (l.dir == q ==> !Matches(padded, n.name))
    ensures Lookup(t[l := n], q, padded, i) == Lookup(t, q, padded, i)
    decreases 16 - i
  {
    if i < 16 {
      LookupAdded(t, l, n, q, padded, i + 1);
    }
  }

  lemma {:induction false} LookupPruned(t: tree, l: Path, q: Path, padded: seq<byte>, i: nat)
    requires l in t && i <= 16 && |padded| == 8 && !Under(q, l)
    requires |t[l].name| == 8 && l.In? && (l.dir == q ==> !Matches(padded, t[l].name))
    ensures Lookup(Pruned(t, l), q, padded, i) == Lookup(t, q, padded, i)
    decreases 16 - i
  {
    if i < 16 {
      LookupPruned(t, l, q, padded, i + 1);
    }
  }

  /** The directories are the root and the folders of the view. */
  lemma DirectoriesAreFolders(d: disk, q: Path)
    requires AllChained(d)
    ensures Resolve(d, q).Some? <==> q == Root || (q in View(d) && View(d)[q].Folder?)
  {
  }

  lemma {:induction false} FirstFreeIsFree(t: tree, p: Path, i: nat)
    requires i <= 16
    ensures FirstFree(t, p, i).Some? ==> In(p, FirstFree(t, p, i).value) !in t
    decreases 16 - i
  {
    if i < 16 {
      FirstFreeIsFree(t, p, i + 1);
    }
  }

  /** The name is that of a file or of nothing in the directory at q of both trees, and stands for the same texts. */
  ghost predicate SameIn(t: tree, u: tree, q: Path, name: seq<byte>) {
    && NoFolder(t, q, name) && NoFolder(u, q, name) && TextNamed(u, q, name) == TextNamed(t, q, name)
    && (q in t ==> q in u && u[q] == t[q])
  }

  lemma SameFound(t: tree, u: tree, q: Path, name: seq<byte>)
    requires NoFolder(t, q, name) && Lookup(u, q, Pad(name, 8), 0) == Lookup(t, q, Pad(name, 8), 0)
    requires forall l :: l in t && l in u ==> u[l] == t[l]
    requires q in t ==> q in u
    ensures SameIn(t, u, q, name)
  {
  }

  lemma AddedText(a: FileSystem, n: Node, q: Path, name: seq<byte>)
    requires |n.name| == 8 && NoFolder(a.tree, q, name) && (q == a.cwd ==> !Matches(Pad(name, 8), n.name))
    ensures SameIn(a.tree, Add(a, n).0.tree, q, name)
  {
    FirstFreeIsFree(a.tree, a.cwd, 0);
    var k := FirstFree(a.tree, a.cwd, 0);
    if k.Some? {
      LookupAdded(a.tree, In(a.cwd, k.value), n, q, Pad(name, 8), 0);
    }
    SameFound(a.tree, Add(a, n).0.tree, q, name);
  }

  lemma PrunedText(t: tree, m: Path, q: Path, name: seq<byte>)
    requires m in t && m.In? && |t[m].name| == 8 && !Under(q, m)
    requires NoFolder(t, q, name) && (q == m.dir ==> !Matches(Pad(name, 8), t[m].name))
    ensures SameIn(t, Pruned(t, m), q, name)
  {
    LookupPruned(t, m, q, Pad(name, 8), 0);
  }

  /** Two disks whose trees agree on a name in a directory answer cat alike. */
  lemma SameText(v: Volume, w: Volume, t: tree, u: tree, q: Path, name: seq<byte>)
    requires Sound(v.disk) && Sound(w.disk) && Resolve(v.disk, q).Some? && IsCString(name)
    requires t == View(v.disk) && u == View(w.disk) && SameIn(t, u, q, name)
    ensures Resolve(w.disk, q).Some? && TextIn(w, q, name) == TextIn(v, q, name)
  {
    DirectoriesAreFolders(v.disk, q);
    DirectoriesAreFolders(w.disk, q);
    TextInView(v, q, name);
    TextInView(w, q, name);
  }

  /** The node that a call adds if it succeeds. */
  function NodeOf(c: Command): (n: Node)
    requires Proper(c) && (c.Write? || c.Mkdir?)
    ensures |n.name| == 8
  {
    if c.Mkdir? then Folder(Pad(c.name, 8), BLANK_EXT, 1)
    else File(c.name[..8], c.name[8..], ARCHIVE, |c.content| % 0x1_0000_0000, [Kept(c.content)])
  }

  /** Writing a file or making a directory leaves what cat shows of every other file, in every directory. */
  lemma AddingKeepsOthers(v: Volume, a: FileSystem, c: Command, q: Path, name: seq<byte>)
    requires Represents(v, a) && Proper(c) && (c.Write? || c.Mkdir?) && IsCString(name)
    requires Resolve(v.disk, q).Some? && NoFolder(a.tree, q, name)
    requires q == a.cwd ==> !Matches(Pad(name, 8), NodeOf(c).name)
    ensures Sound(Next(v, c).disk) && Resolve(Next(v, c).disk, q).Some?
    ensures TextIn(Next(v, c), q, name) == TextIn(v, q, name)
  {
    StepSimulates(v, a, c);
    AddedText(a, NodeOf(c), q, name);
    assert Perform(a, c) == Add(a, NodeOf(c));
    SameText(v, Next(v, c), a.tree, Perform(a, c).0.tree, q, name);
  }

  /** A removal that takes neither the directory at q nor the name from it. */
  ghost predicate Spares(a: FileSystem, target: seq<byte>, q: Path, name: seq<byte>) {
    Named(a, target).Some? ==>
      var l := In(a.cwd, Named(a, target).value);
      !Under(q, l) && |a.tree[l].name| == 8 && (q == a.cwd ==> !Matches(Pad(name, 8), a.tree[l].name))
  }

  lemma RemovedText(a: FileSystem, target: seq<byte>, q: Path, name: seq<byte>)
    requires IsCString(target) && NoFolder(a.tree, q, name) && Spares(a, target, q, name)
    ensures SameIn(a.tree, Perform(a, Rm(target)).0.tree, q, name)
  {
    if Named(a, target).Some? {
      PrunedText(a.tree, In(a.cwd, Named(a, target).value), q, name);
    }
  }

  /** Removing an entry leaves what cat shows of every other file, in every directory outside the removed subtree. */
  lemma RemovingKeepsOthers(v: Volume, a: FileSystem, target: seq<byte>, q: Path, name: seq<byte>)
    requires Represents(v, a) && IsCString(target) && IsCString(name)
    requires Resolve(v.disk, q).Some? && NoFolder(a.tree, q, name) && Spares(a, target, q, name)
    ensures Sound(Next(v, Rm(target)).disk) && Resolve(Next(v, Rm(target)).disk, q).Some?
    ensures TextIn(Next(v, Rm(target)), q, name) == TextIn(v, q, name)
  {
    StepSimulates(v, a, Rm(target));
    RemovedText(a, target, q, name);
    SameText(v, Next(v, Rm(target)), a.tree, Perform(a, Rm(target)).0.tree, q, name);
  }

  // ----- frame: the same directory, directories shown as text included

  lemma CreateGrows(v: Volume, a: FileSystem, name: seq<byte>, attributes: byte, size: u32, body: sector)
    returns (k: slot, e: Entry)
    requires Represents(v, a) && |name| == 11 && name[0] != END_MARK
    requires (attributes == DIRECTORY ==> body == ZeroSector()) && Create(v, name, attributes, size, body).1 == Stored
    ensures Grown(v.disk, Create(v, name, attributes, size, body).0.disk, a.cwd, k, e, body) && e.name == name[..8]
    ensures Create(v, name, attributes, size, body).0.cwd == v.cwd
  {
    var c := FreeClusterFrom(Table(v.disk), 2);
    k, e := FreeSlotFrom(v.Directory(), 0).value, Entry(name[..8], name[8..], attributes, c, size);
    InstalledGrows(v.disk, a.cwd, k, name, attributes, c, size, body);
  }

  /** What a call that adds an entry stores: the 11 characters, the attributes, the size and the sector. */
  function StoredName(c: Command): (r: seq<byte>)
    requires Proper(c) && (c.Write? || c.Mkdir?)
    ensures |r| == 11 && r[0] != END_MARK
  {
    if c.Write? then c.name else Pad(c.name, 8) + BLANK_EXT
  }

  function StoredAttributes(c: Command): byte {
    if c.Write? then ARCHIVE else DIRECTORY
  }

  function StoredSize(c: Command): u32 {
    if c.Write? then |c.content| % 0x1_0000_0000 else 0
  }

  function StoredSector(c: Command): sector {
    if c.Write? then FileSector(c.content) else ZeroSector()
  }

  lemma AddingIsCreate(v: Volume, c: Command)
    requires v.Valid() && Proper(c) && (c.Write? || c.Mkdir?)
    ensures (Next(v, c), ReplyTo(v, c)) == Create(v, StoredName(c), StoredAttributes(c), StoredSize(c), StoredSector(c))
    ensures StoredName(c)[..8] == NodeOf(c).name
  {
    PadPrefix(c.name, 8, BLANK_EXT);
  }

  /** A write or mkdir succeeds exactly if there is room. */
  lemma StoredIfRoom(v: Volume, c: Command)
    requires v.Valid() && Proper(c) && (c.Write? || c.Mkdir?)
    ensures ReplyTo(v, c) == Stored <==> HasRoom(v)
  {
    AddingIsCreate(v, c);
  }

  /** A successful write or mkdir is one of the installations that keep the tree. */
  lemma AddingGrows(v: Volume, a: FileSystem, c: Command) returns (k: slot, e: Entry, body: sector)
    requires Represents(v, a) && Proper(c) && (c.Write? || c.Mkdir?) && ReplyTo(v, c) == Stored
    ensures Grown(v.disk, Next(v, c).disk, a.cwd, k, e, body) && e.name == NodeOf(c).name && Next(v, c).cwd == v.cwd
  {
    AddingIsCreate(v, c);
    body := StoredSector(c);
    k, e := CreateGrows(v, a, StoredName(c), StoredAttributes(c), StoredSize(c), body);
  }

  lemma NamedKept(a: FileSystem, n: Node, target: seq<byte>)
    requires |n.name| == 8 && !Matches(Pad(target, 8), n.name)
    ensures Add(a, n).0.cwd == a.cwd && Named(Add(a, n).0, target) == Named(a, target)
  {
    FirstFreeIsFree(a.tree, a.cwd, 0);
    var k := FirstFree(a.tree, a.cwd, 0);
    if k.Some? {
      LookupAdded(a.tree, In(a.cwd, k.value), n, a.cwd, Pad(target, 8), 0);
    }
  }

  lemma FoundKept(v: Volume, a: FileSystem, c: Command, target: seq<byte>)
    requires Represents(v, a) && Proper(c) && (c.Write? || c.Mkdir?) && !Matches(Pad(target, 8), NodeOf(c).name)
    ensures Next(v, c).Valid() && Find(Next(v, c), target) == Find(v, target) == Named(a, target)
  {
    StepSimulates(v, a, c);
    assert Perform(a, c) == Add(a, NodeOf(c));
    NamedKept(a, NodeOf(c), target);
    NamedAgrees(v, a, target);
    NamedAgrees(Next(v, c), Add(a, NodeOf(c)).0, target);
  }

  /** Where the search still finds what it found, cat shows what it showed. */
  lemma ShownAsBefore(v: Volume, a: FileSystem, c: Command, target: seq<byte>)
    requires Represents(v, a) && Proper(c) && (c.Write? || c.Mkdir?) && ReplyTo(v, c) == Stored
    requires Next(v, c).Valid() && Find(Next(v, c), target) == Find(v, target)
    ensures CatEnds(v, target) && CatEnds(Next(v, c), target)
    ensures CatFile(Next(v, c), target) == CatFile(v, target)
  {
    NamedAgrees(v, a, target);
    if Named(a, target).Some? {
      var l := In(a.cwd, Named(a, target).value);
      var k, e, body := AddingGrows(v, a, c);
      NotInItself(a.cwd, l.slot);
      OldTexts(v.disk, Next(v, c).disk, a.cwd, k, e, body, l);
      PlaceKept(v, a, Next(v, c), k, e, body, l);
    }
  }

  /** A call that adds a name leaves what cat shows of every other name of the current directory. */
  lemma CatKept(v: Volume, a: FileSystem, c: Command, target: seq<byte>)
    requires Represents(v, a) && Proper(c) && (c.Write? || c.Mkdir?) && !Matches(Pad(target, 8), NodeOf(c).name)
    ensures CatEnds(v, target) && Next(v, c).Valid() && CatEnds(Next(v, c), target)
    ensures CatFile(Next(v, c), target) == CatFile(v, target)
  {
    AddingTakesOneCluster(v, c);
    FoundKept(v, a, c, target);
    if ReplyTo(v, c) == Stored {
      ShownAsBefore(v, a, c, target);
    } else {
      CatEndsHere(v, a, target);
    }
  }

  lemma CatEndsHere(v: Volume, a: FileSystem, target: seq<byte>)
    requires Represents(v, a)
    ensures CatEnds(v, target)
  {
    NamedAgrees(v, a, target);
    if Named(a, target).Some? {
      ChainIsWalk(v.disk, At(v.disk, In(a.cwd, Named(a, target).value)).cluster);
    }
  }

  lemma PlaceKept(v: Volume, a: FileSystem, w: Volume, k: slot, e: Entry, body: sector, l: Path)
    requires Represents(v, a) && Grown(v.disk, w.disk, a.cwd, k, e, body) && w.cwd == v.cwd && w.Valid()
    requires Occupied(v.disk, l) && l.dir == a.cwd
    ensures EntryAt(w.Directory(), l.slot) == EntryAt(v.Directory(), l.slot) == At(v.disk, l)
    ensures Occupied(w.disk, l) && At(w.disk, l) == At(v.disk, l)
  {
    LinkedPlaces(v.disk, w.disk, a.cwd, k, e, l);
    LinkedPlaces(v.disk, w.disk, a.cwd, k, e, a.cwd);
    NotInItself(a.cwd, k);
  }

  // ----- a write and a removal cancel

  predicate IsAscii(s: seq<byte>) {
    forall x :: x in s ==> x < 0x80
  }

  /** The comparison of the searches finds two names equal exactly if they are, and are ASCII. */
  lemma MatchesExactly(s: seq<byte>, t: seq<byte>)
    requires |s| == 8 && |t| == 8
    ensures Matches(s, t) <==> s == t && IsAscii(s)
  {
    if Matches(s, t) {
      forall j | 0 <= j < 8
        ensures s[j] == t[j] && s[j] < 0x80
      {
        assert SignedChar(s[j]) == t[j];
      }
    } else if IsAscii(s) && s == t {
      forall j | 0 <= j < 8
        ensures SignedChar(s[j]) == t[j]
      {
        assert s[j] in s;
      }
    }
  }

  lemma {:induction false} FoundLater(t: tree, p: Path, k: slot, n: Node, padded: seq<byte>, i: nat)
    requires i <= k && |padded| == 8 && |n.name| == 8 && Matches(padded, n.name)
    requires Lookup(t, p, padded, i) == None || Lookup(t, p, padded, i).value > k
    ensures Lookup(t[In(p, k) := n], p, padded, i) == Some(k)
    decreases 16 - i
  {
    if i < k {
      FoundLater(t, p, k, n, padded, i + 1);
    }
  }

  /** The directory has no entry of this name before its first free slot. */
  predicate NoneBefore(v: Volume, target: seq<byte>)
    requires v.Valid()
  {
    var k, r := FreeSlotFrom(v.Directory(), 0), Find(v, target);
    r == None || (k.Some? && k.value < r.value)
  }

  ghost predicate NoneBeforeIn(a: FileSystem, target: seq<byte>) {
    var k, r := FirstFree(a.tree, a.cwd, 0), Named(a, target);
    r == None || (k.Some? && k.value < r.value)
  }

  lemma NoneBeforeAgrees(v: Volume, a: FileSystem, target: seq<byte>)
    requires Represents(v, a)
    ensures NoneBefore(v, target) <==> NoneBeforeIn(a, target)
  {
    NamedAgrees(v, a, target);
    ViewMirrors(v.disk, a.cwd);
    FreeSlotAgrees(a.tree, a.cwd, v.Directory(), 0);
  }

  /** A name with a byte of 0x80 or more is never found. */
  lemma {:induction false} NotFoundUnlessAscii(s: sector, padded: seq<byte>, i: nat)
    requires i <= 16 && |padded| == 8 && !IsAscii(padded)
    ensures FindFrom(s, padded, i) == None
    decreases 16 - i
  {
    if i < 16 {
      var j :| 0 <= j < 8 && padded[j] >= 0x80;
      assert SignedChar(padded[j]) != EntryAt(s, i).name[j];
      NotFoundUnlessAscii(s, padded, i + 1);
    }
  }

  /** An ASCII name that was stored is that of a live entry, and its search finds it. */
  lemma StoredIsFound(a: FileSystem, n: Node, target: seq<byte>)
    requires |n.name| == 8 && n.name == Pad(target, 8) && IsAscii(n.name) && Add(a, n).1 == Stored
    ensures n.name[0] != DELETED_MARK && Matches(Pad(target, 8), n.name)
    ensures a.free > 0 && FirstFree(a.tree, a.cwd, 0).Some?
  {
    MatchesExactly(Pad(target, 8), n.name);
    assert n.name[0] in n.name;
  }

  /** Where the search finds a file that was written under an ASCII name, with no entry of it in an earlier slot. */
  lemma StoredNode(v: Volume, a: FileSystem, c: Command, target: seq<byte>)
    requires Represents(v, a) && c.Write? && Proper(c) && IsCString(target) && ReplyTo(v, c) == Stored
    requires Pad(target, 8) == c.name[..8] && IsAscii(c.name[..8]) && NoneBefore(v, target)
    ensures FreeSlotFrom(v.Directory(), 0).Some?
    ensures var b, k := Perform(a, c).0, FreeSlotFrom(v.Directory(), 0).value;
      && b.cwd == a.cwd && Lookup(b.tree, a.cwd, Pad(target, 8), 0) == Some(k)
      && b.tree[In(a.cwd, k)] == NodeOf(c)
  {
    var n := NodeOf(c);
    assert Perform(a, c) == Add(a, n);
    RoomAgrees(v, a);
    StepSimulates(v, a, c);
    NoneBeforeAgrees(v, a, target);
    StoredIsFound(a, n, target);
    FoundLater(a.tree, a.cwd, FirstFree(a.tree, a.cwd, 0).value, n, Pad(target, 8), 0);
  }

  lemma FileNamed(b: FileSystem, target: seq<byte>, k: slot)
    requires IsCString(target) && Lookup(b.tree, b.cwd, Pad(target, 8), 0) == Some(k) && b.tree[In(b.cwd, k)].File?
    ensures !ShowsFolder(b, Cat(target)) && Perform(b, Cat(target)).1 == Shown(b.tree[In(b.cwd, k)].pieces)
  {
  }

  /** cat shows the file that the search in the tree finds. */
  lemma CatShows(w: Volume, b: FileSystem, target: seq<byte>, k: slot)
    requires Represents(w, b)
    requires IsCString(target) && Lookup(b.tree, b.cwd, Pad(target, 8), 0) == Some(k) && b.tree[In(b.cwd, k)].File?
    ensures CatEnds(w, target) && CatFile(w, target) == Shown(b.tree[In(b.cwd, k)].pieces)
  {
    FileNamed(b, target, k);
    CatAgrees(w, b, target);
  }

  /** It shows exactly what was kept of its content. */
  lemma NewFileShown(v: Volume, a: FileSystem, c: Command, target: seq<byte>)
    requires Represents(v, a) && c.Write? && Proper(c) && IsCString(target) && ReplyTo(v, c) == Stored
    requires Pad(target, 8) == c.name[..8] && IsAscii(c.name[..8]) && NoneBefore(v, target)
    ensures Next(v, c).Valid() && CatEnds(Next(v, c), target)
    ensures CatFile(Next(v, c), target) == Shown([Kept(c.content)])
  {
    StoredNode(v, a, c, target);
    StepSimulates(v, a, c);
    CatShows(Next(v, c), Perform(a, c).0, target, FreeSlotFrom(v.Directory(), 0).value);
  }

  lemma {:induction false} FoundEarlier(t: tree, p: Path, k: slot, n: Node, padded: seq<byte>, i: nat)
    requires i <= 16 && |padded| == 8 && |n.name| == 8
    requires Lookup(t, p, padded, i).Some? && Lookup(t, p, padded, i).value < k
    ensures Lookup(t[In(p, k) := n], p, padded, i) == Lookup(t, p, padded, i)
    decreases 16 - i
  {
    if i < 16 && Lookup(t, p, padded, i).value != i {
      FoundEarlier(t, p, k, n, padded, i + 1);
    }
  }

  lemma NamedEarlier(a: FileSystem, n: Node, target: seq<byte>)
    requires |n.name| == 8 && Add(a, n).1 == Stored && !NoneBeforeIn(a, target)
    ensures Add(a, n).0.cwd == a.cwd && Named(Add(a, n).0, target) == Named(a, target)
  {
    FirstFreeIsFree(a.tree, a.cwd, 0);
    FoundEarlier(a.tree, a.cwd, FirstFree(a.tree, a.cwd, 0).value, n, Pad(target, 8), 0);
  }

  /** An entry of the name in an earlier slot is still the one that is found. */
  lemma EarlierIsFound(v: Volume, a: FileSystem, c: Command, target: seq<byte>)
    requires Represents(v, a) && Proper(c) && (c.Write? || c.Mkdir?) && ReplyTo(v, c) == Stored
    requires !NoneBefore(v, target)
    ensures Next(v, c).Valid() && Find(Next(v, c), target) == Find(v, target)
  {
    StepSimulates(v, a, c);
    assert Perform(a, c) == Add(a, NodeOf(c));
    NoneBeforeAgrees(v, a, target);
    NamedEarlier(a, NodeOf(c), target);
    NamedAgrees(v, a, target);
    NamedAgrees(Next(v, c), Add(a, NodeOf(c)).0, target);
  }

  /** What cat shows of any name after any write that was stored: the new content exactly if it is the name written,
      that is ASCII, and no earlier slot has it; and otherwise what it showed before. */
  lemma CatAfterWrite(v: Volume, a: FileSystem, c: Command, target: seq<byte>)
    requires Represents(v, a) && c.Write? && Proper(c) && IsCString(target) && ReplyTo(v, c) == Stored
    ensures CatEnds(v, target) && Next(v, c).Valid() && CatEnds(Next(v, c), target)
    ensures CatFile(Next(v, c), target)
         == if Pad(target, 8) == c.name[..8] && IsAscii(c.name[..8]) && NoneBefore(v, target)
            then Shown([Kept(c.content)]) else CatFile(v, target)
  {
    MatchesExactly(Pad(target, 8), c.name[..8]);
    if !Matches(Pad(target, 8), NodeOf(c).name) {
      CatKept(v, a, c, target);
    } else if NoneBefore(v, target) {
      CatEndsHere(v, a, target);
      NewFileShown(v, a, c, target);
    } else {
      EarlierIsFound(v, a, c, target);
      ShownAsBefore(v, a, c, target);
    }
  }

  /** The entry that a successful write stores, in the first slot without a live one. */
  lemma StoredEntry(v: Volume, name: seq<byte>, content: seq<byte>)
    requires Safe(v) && Proper(Write(name, content)) && ReplyTo(v, Write(name, content)) == Stored
    ensures FreeSlotFrom(v.Directory(), 0).Some?
    ensures EntryAt(Next(v, Write(name, content)).Directory(), FreeSlotFrom(v.Directory(), 0).value)
         == Entry(name[..8], name[8..], ARCHIVE, FreeClusterFrom(Table(v.disk), 2), |content| % 0x1_0000_0000)
  {
    var k, c := FreeSlotFrom(v.Directory(), 0).value, FreeClusterFrom(Table(v.disk), 2);
    var size := |content| % 0x1_0000_0000;
    var a := SafeRepresents(v);
    ReachableAllocated(v.disk, a.cwd);
    InstalledSectors(v.disk, v.cwd, k, name, ARCHIVE, c, size, FileSector(content));
    PutEntryAt(v.Directory(), k, name, ARCHIVE, c, size, k);
  }

  lemma SizeOfKept(content: seq<byte>, size: u32)
    requires |content| < 0x1_0000_0000 && size == |content| % 0x1_0000_0000
    ensures size == |content| && (size == |Kept(content)| <==> |content| <= 511)
  {
  }

  /** The stored size is the length of what was kept exactly if nothing was cut off. */
  lemma SizeIsTrue(v: Volume, name: seq<byte>, content: seq<byte>)
    requires Safe(v) && Proper(Write(name, content)) && ReplyTo(v, Write(name, content)) == Stored
    requires |content| < 0x1_0000_0000
    ensures FreeSlotFrom(v.Directory(), 0).Some?
    ensures var e := EntryAt(Next(v, Write(name, content)).Directory(), FreeSlotFrom(v.Directory(), 0).value);
      e.size == |content| && (e.size == |Kept(content)| <==> |content| <= 511)
  {
    StoredEntry(v, name, content);
    SizeOfKept(content, EntryAt(Next(v, Write(name, content)).Directory(), FreeSlotFrom(v.Directory(), 0).value).size);
  }

  /** On a disk with a zero FAT and root no name is in use, and the first write succeeds. */
  lemma FirstWriteIsStored(d: disk, name: seq<byte>, content: seq<byte>, target: seq<byte>)
    requires Blank(d) && Proper(Write(name, content))
    ensures Safe(Volume(d, 0))
    ensures Find(Volume(d, 0), target) == None && ReplyTo(Volume(d, 0), Write(name, content)) == Stored
  {
    var v, a := Volume(d, 0), EmptyFileSystem();
    BlankRepresents(d);
    BlankSafe(d);
    NamedAgrees(v, a, target);
    LookupFindsNothing(a.tree, Root, Pad(target, 8), 0);
    StepSimulates(v, a, Write(name, content));
    assert FirstFree(a.tree, Root, 0) == Some(0);
  }

  /** The first file on such a disk: its size, and what cat shows under its name. */
  ghost predicate FirstFile(d: disk, name: seq<byte>, content: seq<byte>, size: int, shown: Reply)
    requires Proper(Write(name, content))
  {
    var v, call := Volume(d, 0), Write(name, content);
    && ReplyTo(v, call) == Stored && FreeSlotFrom(v.Directory(), 0).Some?
    && EntryAt(Next(v, call).Directory(), FreeSlotFrom(v.Directory(), 0).value).size == size
    && Next(v, call).Valid() && CatEnds(Next(v, call), name[..8]) && CatFile(Next(v, call), name[..8]) == shown
  }

  lemma FirstFileShown(d: disk, name: seq<byte>, content: seq<byte>)
    requires Blank(d) && Proper(Write(name, content)) && |content| < 0x1_0000_0000
    ensures FirstFile(d, name, content, |content|, if IsAscii(name[..8]) then Shown([Kept(content)]) else NotFound)
  {
    BlankRepresents(d);
    FirstWriteIsStored(d, name, content, name[..8]);
    SizeIsTrue(Volume(d, 0), name, content);
    PadWhole(name[..8], 8);
    CatAfterWrite(Volume(d, 0), EmptyFileSystem(), Write(name, content), name[..8]);
  }

  /** 512 characters: the size says 512, and cat shows 511 of them. */
  lemma LongContentExample(d: disk, name: seq<byte>, content: seq<byte>)
    requires Blank(d) && name == seq(11, _ => 97) && content == seq(512, _ => 97)
    ensures Proper(Write(name, content)) && FirstFile(d, name, content, 512, Shown([content[..511]]))
  {
    FirstFileShown(d, name, content);
  }

  /** A name of bytes 0xC1: the write succeeds, and cat does not find the file. */
  lemma ForeignNameExample(d: disk, name: seq<byte>, content: seq<byte>)
    requires Blank(d) && name == seq(11, _ => 0xC1) && content == [97]
    ensures Proper(Write(name, content)) && FirstFile(d, name, content, 1, NotFound)
  {
    FirstFileShown(d, name, content);
    assert name[0] in name[..8];
  }

  /** After one file was added to the empty file system, another one is stored behind it. */
  lemma SecondIsBehind(n: Node, m: Node, target: seq<byte>)
    requires |n.name| == 8 && |m.name| == 8 && n.name == Pad(target, 8) && IsAscii(n.name)
    ensures var a := Add(EmptyFileSystem(), n).0;
      Add(a, m).1 == Stored && !NoneBeforeIn(a, target)
  {
    var a := Add(EmptyFileSystem(), n).0;
    assert n.name[0] in n.name;
    assert FirstFree(EmptyFileSystem().tree, Root, 0) == Some(0);
    assert In(Root, 0) in a.tree && In(Root, 1) !in a.tree;
    assert FirstFree(a.tree, Root, 1) == Some(1);
    MatchesExactly(Pad(target, 8), n.name);
    assert Named(a, target) == Some(0);
  }

  lemma StoredSecond(v: Volume, n: Node, c: Command, target: seq<byte>)
    requires |n.name| == 8 && n.name == Pad(target, 8) && IsAscii(n.name)
    requires Represents(v, Add(EmptyFileSystem(), n).0) && c.Write? && Proper(c) && IsCString(target)
    ensures ReplyTo(v, c) == Stored && CatEnds(v, target) && Next(v, c).Valid() && CatEnds(Next(v, c), target)
    ensures CatFile(Next(v, c), target) == CatFile(v, target)
  {
    var a := Add(EmptyFileSystem(), n).0;
    SecondIsBehind(n, NodeOf(c), target);
    StepSimulates(v, a, c);
    assert Perform(a, c) == Add(a, NodeOf(c));
    NoneBeforeAgrees(v, a, target);
    CatAfterWrite(v, a, c, target);
  }

  /** Two writes of the same name: both are stored, and cat goes on showing the first. */
  lemma SecondWriteExample(d: disk, name: seq<byte>, one: seq<byte>, two: seq<byte>)
    requires Blank(d) && Proper(Write(name, one)) && Proper(Write(name, two)) && IsAscii(name[..8])
    ensures var v := Volume(d, 0);
      var w := Next(v, Write(name, one));
      && ReplyTo(v, Write(name, one)) == Stored && w.Valid() && ReplyTo(w, Write(name, two)) == Stored
      && Next(w, Write(name, two)).Valid() && CatEnds(Next(w, Write(name, two)), name[..8])
      && CatFile(Next(w, Write(name, two)), name[..8]) == Shown([Kept(one)])
  {
    var v, target, first := Volume(d, 0), name[..8], Write(name, one);
    BlankRepresents(d);
    FirstWriteIsStored(d, name, one, target);
    PadWhole(target, 8);
    StepSimulates(v, EmptyFileSystem(), first);
    assert Perform(EmptyFileSystem(), first) == Add(EmptyFileSystem(), NodeOf(first));
    CatAfterWrite(v, EmptyFileSystem(), first, target);
    StoredSecond(Next(v, first), NodeOf(first), Write(name, two), target);
  }

  lemma {:induction false} OccupiedAbove(d: disk, m: Path, l: Path)
    requires Occupied(d, m) && Under(m, l) && l.In?
    ensures Occupied(d, l)
  {
    if m != l {
      UnderIsDeeper(m.dir, l);
      ResolveOccupied(d, m.dir);
      OccupiedAbove(d, m.dir, l);
    }
  }

  /** Freeing a cluster that was just allocated restores the FAT sector. */
  lemma TableRestored(d: disk, cwd: u16, k: slot, name: seq<byte>, attributes: byte, c: u16, size: u32, body: sector)
    requires IsDir(cwd) && InRange(c) && c != cwd && |name| == 11 && Table(d)[c] == FREE
    ensures var d' := Install(d, cwd, k, name, attributes, c, size, body);
      && EntryAt(d'[DirSector(cwd)], k).cluster == c
      && FreeClustersFrom(MarkDeleted(d', cwd, k), c)[FAT_SECTOR] == d[FAT_SECTOR]
  {
    var d' := Install(d, cwd, k, name, attributes, c, size, body);
    InstalledSectors(d, cwd, k, name, attributes, c, size, body);
    PutEntryAt(d[DirSector(cwd)], k, name, attributes, c, size, k);
    var f := Table(d');
    ChainUnique(f, c, [c]);
    ChainReached(f, c);
    assert Table(MarkDeleted(d', cwd, k)) == f;
    assert Freed(f, c) == Table(d);
    FatSectorStores(Table(d));
    FatInjective(d[FAT_SECTOR], FatSector(Table(d)));
  }

  /** On the abstract side, removing the node just added restores the tree. */
  lemma AddThenRemove(a: FileSystem, n: Node, target: seq<byte>)
    requires |n.name| == 8 && n.Span() == 1 && n.name[0] != DELETED_MARK && Matches(Pad(target, 8), n.name)
    requires a.free > 0 && FirstFree(a.tree, a.cwd, 0).Some? && NoneBeforeIn(a, target) && IsCString(target)
    requires forall m, l: Path :: m in a.tree && l.In? && Under(m, l) ==> l in a.tree
    ensures Named(Add(a, n).0, target) == FirstFree(a.tree, a.cwd, 0)
    ensures Perform(Add(a, n).0, Rm(target)).0 == a
  {
    var k := FirstFree(a.tree, a.cwd, 0).value;
    FirstFreeIsFree(a.tree, a.cwd, 0);
    FoundLater(a.tree, a.cwd, k, n, Pad(target, 8), 0);
    var b := AddAt(a, k, n);
    assert Add(a, n).0 == b && b.tree == a.tree[In(a.cwd, k) := n];
    SameTree(Pruned(b.tree, In(a.cwd, k)), a.tree);
  }

  lemma TreesArePrefixClosed(d: disk)
    requires AllChained(d)
    ensures forall m, l: Path :: m in View(d) && l.In? && Under(m, l) ==> l in View(d)
  {
    forall m, l: Path | m in View(d) && l.In? && Under(m, l)
      ensures l in View(d)
    {
      OccupiedAbove(d, m, l);
    }
  }

  /** The bytes of the FAT sector after a write and the removal of the slot written. */
  lemma WriteThenRemoveTable(v: Volume, k: slot, name: seq<byte>, content: seq<byte>)
    requires v.Valid() && |name| == 11 && HasRoom(v) && FreeSlotFrom(v.Directory(), 0) == Some(k)
    requires FreeClusterFrom(Table(v.disk), 2) != v.cwd
    ensures RemoveEntry(WriteFile(v, name, content).0, k).disk[FAT_SECTOR] == v.disk[FAT_SECTOR]
  {
    var c, size := FreeClusterFrom(Table(v.disk), 2), |content| % 0x1_0000_0000;
    TableRestored(v.disk, v.cwd, k, name, ARCHIVE, c, size, FileSector(content));
  }

  lemma RemovesEntry(w: Volume, target: seq<byte>, k: slot)
    requires w.Valid() && Find(w, target) == Some(k)
    ensures RemoveFile(w, target).0 == RemoveEntry(w, k)
  {
  }

  /** The removal that finds the node just added. */
  lemma RemovedFound(w: Volume, a: FileSystem, n: Node, target: seq<byte>)
    requires |n.name| == 8 && n.name == Pad(target, 8) && IsAscii(n.name) && Add(a, n).1 == Stored && n.Span() == 1
    requires IsCString(target) && NoneBeforeIn(a, target) && Represents(w, Add(a, n).0)
    requires forall m, l: Path :: m in a.tree && l.In? && Under(m, l) ==> l in a.tree
    ensures Represents(Next(w, Rm(target)), a) && Find(w, target) == FirstFree(a.tree, a.cwd, 0)
  {
    StoredIsFound(a, n, target);
    AddThenRemove(a, n, target);
    NamedAgrees(w, Add(a, n).0, target);
    StepSimulates(w, Add(a, n).0, Rm(target));
    assert Perform(Add(a, n).0, Rm(target)).0 == a;
  }

  lemma TwoCalls(v: Volume, name: seq<byte>, content: seq<byte>, target: seq<byte>)
    requires v.Valid() && Proper(Write(name, content)) && IsCString(target)
    ensures Next(v, Write(name, content)) == WriteFile(v, name, content).0
    ensures Next(Next(v, Write(name, content)), Rm(target)) == RemoveFile(WriteFile(v, name, content).0, target).0
    ensures Next(Next(v, Write(name, content)), Rm(target)).cwd == v.cwd
  {
  }

  /** The write and the removal, where the removal finds the slot just written. */
  lemma WriteThenRemoveFound(v: Volume, a: FileSystem, name: seq<byte>, content: seq<byte>, target: seq<byte>)
    requires Represents(v, a) && Proper(Write(name, content)) && IsCString(target)
    requires Pad(target, 8) == name[..8] && IsAscii(name[..8]) && NoneBefore(v, target)
    requires ReplyTo(v, Write(name, content)) == Stored
    ensures var w := Next(Next(v, Write(name, content)), Rm(target));
      Represents(w, a) && w.cwd == v.cwd && w.disk[FAT_SECTOR] == v.disk[FAT_SECTOR]
  {
    var n := NodeOf(Write(name, content));
    NoneBeforeAgrees(v, a, target);
    StepSimulates(v, a, Write(name, content));
    assert Perform(a, Write(name, content)) == Add(a, n);
    TreesArePrefixClosed(v.disk);
    StoredIsFound(a, n, target);
    TwoCalls(v, name, content, target);
    RemovedFound(Next(v, Write(name, content)), a, n, target);
    RoomAgrees(v, a);
    ReachableAllocated(v.disk, a.cwd);
    var k := FreeSlotFrom(v.Directory(), 0).value;
    RemovesEntry(WriteFile(v, name, content).0, target, k);
    WriteThenRemoveTable(v, k, name, content);
  }

  /** If an earlier slot has the name, the removal takes that entry instead, and it is gone. */
  lemma RemovesOther(a: FileSystem, n: Node, target: seq<byte>)
    requires |n.name| == 8 && n.name[0] != DELETED_MARK && IsCString(target)
    requires a.free > 0 && FirstFree(a.tree, a.cwd, 0).Some? && !NoneBeforeIn(a, target)
    ensures Perform(Add(a, n).0, Rm(target)).0.tree != a.tree
  {
    var k := FirstFree(a.tree, a.cwd, 0).value;
    FirstFreeIsFree(a.tree, a.cwd, 0);
    FoundEarlier(a.tree, a.cwd, k, n, Pad(target, 8), 0);
    assert In(a.cwd, Named(a, target).value) !in Perform(Add(a, n).0, Rm(target)).0.tree;
  }

  /** If the name is not found, the removal does nothing, and the cluster stays taken. */
  lemma RemovesNothing(a: FileSystem, n: Node, target: seq<byte>)
    requires |n.name| == 8 && IsCString(target)
    requires a.free > 0 && FirstFree(a.tree, a.cwd, 0).Some? && Named(Add(a, n).0, target) == None
    ensures Perform(Add(a, n).0, Rm(target)).0.free == a.free - 1
  {
  }

  lemma RemovedElse(w: Volume, a: FileSystem, n: Node, target: seq<byte>)
    requires |n.name| == 8 && IsCString(target) && Represents(w, Add(a, n).0) && Add(a, n).1 == Stored
    requires if IsAscii(n.name) then !NoneBeforeIn(a, target) else n.name == Pad(target, 8)
    ensures !Represents(Next(w, Rm(target)), a)
  {
    StepSimulates(w, Add(a, n).0, Rm(target));
    if IsAscii(n.name) {
      assert n.name[0] in n.name;
      RemovesOther(a, n, target);
    } else {
      NotFoundUnlessAscii(w.Directory(), Pad(target, 8), 0);
      NamedAgrees(w, Add(a, n).0, target);
      RemovesNothing(a, n, target);
    }
  }

  lemma WriteThenRemoveOther(v: Volume, a: FileSystem, name: seq<byte>, content: seq<byte>, target: seq<byte>)
    requires Represents(v, a) && Proper(Write(name, content)) && IsCString(target)
    requires Pad(target, 8) == name[..8] && !(IsAscii(name[..8]) && NoneBefore(v, target))
    requires ReplyTo(v, Write(name, content)) == Stored
    ensures !Represents(Next(Next(v, Write(name, content)), Rm(target)), a)
  {
    NoneBeforeAgrees(v, a, target);
    StepSimulates(v, a, Write(name, content));
    assert Perform(a, Write(name, content)) == Add(a, NodeOf(Write(name, content)));
    RemovedElse(Next(v, Write(name, content)), a, NodeOf(Write(name, content)), target);
  }

  /** Writing a file and removing it again restores the FAT sector and the whole tree exactly if its name is
      ASCII and no earlier slot has it. */
  lemma WriteThenRemove(v: Volume, a: FileSystem, name: seq<byte>, content: seq<byte>, target: seq<byte>)
    requires Represents(v, a) && Proper(Write(name, content)) && IsCString(target)
    requires Pad(target, 8) == name[..8] && ReplyTo(v, Write(name, content)) == Stored
    ensures var w := Next(Next(v, Write(name, content)), Rm(target));
      Represents(w, a) && w.cwd == v.cwd && w.disk[FAT_SECTOR] == v.disk[FAT_SECTOR]
      <==> IsAscii(name[..8]) && NoneBefore(v, target)
  {
    if IsAscii(name[..8]) && NoneBefore(v, target) {
      WriteThenRemoveFound(v, a, name, content, target);
    } else {
      WriteThenRemoveOther(v, a, name, content, target);
    }
  }
}
