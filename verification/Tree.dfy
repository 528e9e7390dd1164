/** The directory tree a disk holds, the ownership invariant over it, and its abstract view. */
module Tree {
  import opened Bytes
  import opened Layout
  import opened Chains

  datatype Option<+T> = None | Some(value: T)

  /** The sectors up to the one of cluster 255 exist; later ones are never touched. */
  type disk = d: seq<sector> | |d| >= 354 witness seq<sector>(354, _ => ZeroSector())

  /** A place in the tree: the root directory, or a slot of the directory at a place. */
  datatype Path = Root | In(dir: Path, slot: slot)

  const FAT_SECTOR := 50
  const ROOT_SECTOR := 68

  function DataSector(c: u16): int {
    100 + (c - 2)
  }

  predicate IsDir(c: u16) {
    c == 0 || InRange(c)
  }

  function DirSector(c: u16): int {
    if c == 0 then ROOT_SECTOR else DataSector(c)
  }

  function Table(d: disk): fat {
    Fat(d[FAT_SECTOR])
  }

  function Slot(d: disk, c: u16, i: slot): (e: Entry)
    requires IsDir(c)
    ensures |e.name| == 8
  {
    EntryAt(d[DirSector(c)], i)
  }

  /** The cluster of the directory that a path leads to, 0 for the root, if it leads to one. */
  function Resolve(d: disk, p: Path): (r: Option<u16>)
    ensures r.Some? ==> IsDir(r.value)
  {
    match p
    case Root => Some(0)
    case In(q, i) =>
      var r := Resolve(d, q);
      if r == None then None
      else
        var e := Slot(d, r.value, i);
        if e.Live() && e.IsDirectory() && InRange(e.cluster) then Some(e.cluster) else None
  }

  /** The slot that the path leads to is in a directory reachable from the root and holds a live entry. */
  predicate Occupied(d: disk, l: Path) {
    l.In? && Resolve(d, l.dir).Some? && Slot(d, Resolve(d, l.dir).value, l.slot).Live()
  }

  function At(d: disk, l: Path): (e: Entry)
    requires Occupied(d, l)
    ensures |e.name| == 8
  {
    Slot(d, Resolve(d, l.dir).value, l.slot)
  }

  /** After the first free slot every slot is free. */
  predicate ZeroTail(s: sector) {
    forall i: slot, j: slot :: i < j && EntryAt(s, i).name[0] == END_MARK ==> EntryAt(s, j).name[0] == END_MARK
  }

  ghost predicate AllChained(d: disk) {
    forall l: Path {:trigger At(d, l)} :: Occupied(d, l) ==> Chained(Table(d), At(d, l).cluster)
  }

  ghost function ChainAt(d: disk, l: Path): seq<u16>
    requires Occupied(d, l) && Chained(Table(d), At(d, l).cluster)
  {
    Chain(Table(d), At(d, l).cluster)
  }

  /** Every live entry reachable from the root owns an acyclic, terminated chain, no cluster is on the
      chains of two entries, and every reachable directory is free behind its end mark. */
  ghost predicate Sound(d: disk) {
    && AllChained(d)
    && (forall l: Path, m: Path {:trigger ChainAt(d, l), ChainAt(d, m)} ::
          Occupied(d, l) && Occupied(d, m) && l != m ==> Apart(ChainAt(d, l), ChainAt(d, m)))
    && (forall p: Path :: Resolve(d, p).Some? ==> ZeroTail(d[DirSector(Resolve(d, p).value)]))
  }

  lemma ResolveOccupied(d: disk, p: Path)
    requires p.In? && Resolve(d, p).Some?
    ensures Occupied(d, p) && At(d, p).IsDirectory() && At(d, p).cluster == Resolve(d, p).value
    ensures InRange(Resolve(d, p).value)
  {
  }

  /** The directory that a reachable entry names can be entered. */
  lemma DirectoryResolves(d: disk, l: Path)
    requires AllChained(d) && Occupied(d, l) && At(d, l).IsDirectory()
    ensures Resolve(d, l) == Some(At(d, l).cluster)
  {
  }

  /** A reachable directory is allocated. */
  lemma ReachableAllocated(d: disk, p: Path)
    requires AllChained(d) && Resolve(d, p).Some?
    ensures var c := Resolve(d, p).value; c == 0 || (InRange(c) && Table(d)[c] != FREE)
  {
    if p.In? {
      ResolveOccupied(d, p);
      OnChainAllocated(Table(d), At(d, p).cluster, At(d, p).cluster);
    }
  }

  /** Directories form a tree: no directory can be reached along two paths. */
  lemma DirectoriesFormATree(d: disk, p: Path, q: Path)
    requires Sound(d) && Resolve(d, p).Some? && Resolve(d, p) == Resolve(d, q)
    ensures p == q
  {
    if p.In? {
      ResolveOccupied(d, p);
    }
    if q.In? {
      ResolveOccupied(d, q);
    }
    if p.In? && q.In? {
      assert Resolve(d, p).value in ChainAt(d, p) && Resolve(d, p).value in ChainAt(d, q);
    }
  }

  // ----- the walk of cat

  /** The disk has the sector of the cluster. */
  predicate Readable(d: disk, c: u16) {
    2 <= c && DataSector(c) < |d|
  }

  /** The 16-bit entry after c, in whichever sector behind the first FAT sector it falls. */
  function NextCluster(d: disk, c: u16): u16 {
    FatEntry(d[FAT_SECTOR + c / 256], c % 256)
  }

  /** A walk goes on from every cluster from 2 on below the end marks, inside the table or not. */
  predicate GoesOn(c: u16) {
    2 <= c < END_OF_CHAIN
  }

  /** ch is the whole walk from c; it comes to an end and the disk has all its sectors. */
  ghost predicate IsWalk(d: disk, c: u16, ch: seq<u16>)
    decreases |ch|
  {
    if GoesOn(c) then ch != [] && ch[0] == c && Readable(d, c) && IsWalk(d, NextCluster(d, c), ch[1..])
    else ch == []
  }

  ghost predicate Ends(d: disk, c: u16) {
    exists ch :: IsWalk(d, c, ch)
  }

  ghost function Walk(d: disk, c: u16): (ch: seq<u16>)
    requires Ends(d, c)
    ensures IsWalk(d, c, ch)
  {
    var ch :| IsWalk(d, c, ch);
    ch
  }

  lemma {:induction false} WalkUnique(d: disk, c: u16, a: seq<u16>, b: seq<u16>)
    requires IsWalk(d, c, a) && IsWalk(d, c, b)
    ensures a == b
    decreases |a|
  {
    if GoesOn(c) {
      WalkUnique(d, NextCluster(d, c), a[1..], b[1..]);
      assert a == [c] + a[1..] && b == [c] + b[1..];
    }
  }

  /** Where n steps of the walk lead. */
  function Step(d: disk, c: u16, n: nat): u16 {
    if n == 0 then c else NextCluster(d, Step(d, c, n - 1))
  }

  lemma {:induction false} WalkFrom(d: disk, c: u16, ch: seq<u16>, n: nat)
    requires IsWalk(d, c, ch) && forall i: nat :: i < n ==> GoesOn(Step(d, c, i))
    ensures n <= |ch| && IsWalk(d, Step(d, c, n), ch[n..])
  {
    if n == 0 {
      assert ch[0..] == ch;
    } else {
      WalkFrom(d, c, ch, n - 1);
      assert GoesOn(Step(d, c, n - 1)) && ch[n - 1..][1..] == ch[n..];
    }
  }

  /** A walk that comes back to where it started does not end. */
  lemma CycleNeverEnds(d: disk, c: u16, n: nat)
    requires n > 0 && Step(d, c, n) == c && forall i: nat :: i < n ==> GoesOn(Step(d, c, i))
    ensures !Ends(d, c)
  {
    if Ends(d, c) {
      var ch := Walk(d, c);
      WalkFrom(d, c, ch, n);
      WalkUnique(d, c, ch, ch[n..]);
    }
  }

  lemma {:induction false} WalkPlaces(d: disk, c: u16, ch: seq<u16>)
    requires IsWalk(d, c, ch)
    ensures forall i :: 0 <= i < |ch| ==> Readable(d, ch[i])
    decreases |ch|
  {
    if GoesOn(c) {
      WalkPlaces(d, NextCluster(d, c), ch[1..]);
      assert ch == [c] + ch[1..];
    }
  }

  lemma NextInTable(d: disk, c: u16)
    requires InRange(c)
    ensures NextCluster(d, c) == Table(d)[c]
  {
  }

  lemma {:induction false} ChainWalk(d: disk, c: u16, ch: seq<u16>, i: nat)
    requires IsChain(Table(d), c, ch) && i < |ch|
    ensures IsWalk(d, ch[i], ch[i..])
    decreases |ch| - i
  {
    NextInTable(d, ch[i]);
    assert ch[i..][1..] == ch[i + 1..];
    if i + 1 < |ch| {
      ChainWalk(d, c, ch, i + 1);
      assert Table(d)[ch[i]] == ch[i + 1];
    }
  }

  /** A complete chain inside the table is the walk from its start. */
  lemma ChainIsWalk(d: disk, c: u16)
    requires Chained(Table(d), c)
    ensures Ends(d, c) && Walk(d, c) == Chain(Table(d), c)
  {
    var ch := Chain(Table(d), c);
    ChainWalk(d, c, ch, 0);
    assert ch[0..] == ch;
    WalkUnique(d, c, ch, Walk(d, c));
  }

  // ----- the abstract view

  /** What a cluster shows when it is printed as text. */
  function Text(s: sector): seq<byte> {
    UpToNul(s[..511])
  }

  function Pieces(d: disk, ch: seq<u16>): seq<seq<byte>>
    requires forall i :: 0 <= i < |ch| ==> Readable(d, ch[i])
  {
    seq(|ch|, i requires 0 <= i < |ch| => assert Readable(d, ch[i]); Text(d[DataSector(ch[i])]))
  }

  /** A file shows one piece of text per cluster; a directory occupies `span` clusters. */
  datatype Node =
    | File(name: seq<byte>, ext: seq<byte>, attributes: byte, size: u32, pieces: seq<seq<byte>>)
    | Folder(name: seq<byte>, ext: seq<byte>, span: nat)
  {
    function Span(): nat {
      if File? then |pieces| else span
    }
  }

  ghost function NodeAt(d: disk, l: Path): (n: Node)
    requires Occupied(d, l) && Chained(Table(d), At(d, l).cluster)
    ensures |n.name| == 8 && n.Span() == |ChainAt(d, l)|
  {
    var e := At(d, l);
    if e.IsDirectory() then Folder(e.name, e.ext, |ChainAt(d, l)|)
    else File(e.name, e.ext, e.attributes, e.size, Pieces(d, ChainAt(d, l)))
  }

  type tree = imap<Path, Node>

  ghost function View(d: disk): tree
    requires AllChained(d)
  {
    imap l: Path | Occupied(d, l) :: NodeAt(d, l)
  }

  lemma SameTree(a: tree, b: tree)
    requires forall l :: l in a <==> l in b
    requires forall l :: l in a ==> a[l] == b[l]
    ensures a == b
  {
  }
}
