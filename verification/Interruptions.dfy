/** What an interruption between two sector writes leaves behind. */
module Interruptions {
  import opened Bytes
  import opened Layout
  import opened Chains
  import opened Tree
  import opened Volume
  import opened Creation
  import opened Removal
  import opened Simulation
  import opened Leaks

  /** remove_file marks before it frees, so the disk between its two writes is sound: the tree has already lost
      the entry, the current directory still stands, and what is lost is the chain of the entry and the clusters of
      whatever was inside. */
  lemma RemovalOrderIsSafe(v: Volume, a: FileSystem, name: seq<byte>)
    requires Represents(v, a) && Find(v, name).Some?
    ensures var k := Find(v, name).value; var mid := MarkDeleted(v.disk, v.cwd, k);
      && Sound(mid) && View(mid) == Pruned(View(v.disk), In(a.cwd, k))
      && Resolve(mid, a.cwd) == Some(v.cwd)
      && FreeClusters(Table(mid)) == FreeClusters(Table(v.disk))
      && Occupied(v.disk, In(a.cwd, k))
      && Leaked(mid) == Leaked(v.disk) + Clusters(ChainAt(v.disk, In(a.cwd, k))) + Below(v.disk, In(a.cwd, k))
  {
    NamedAgrees(v, a, name);
    var k := Find(v, name).value;
    var mid := MarkDeleted(v.disk, v.cwd, k);
    MarkedCuts(v.disk, a.cwd, k);
    CutSound(v.disk, mid, a.cwd, k);
    CutView(v.disk, mid, a.cwd, k);
    NotInItself(a.cwd, k);
    CutPlaces(v.disk, mid, a.cwd, k, a.cwd);
    MarkingLeaks(v.disk, mid, a.cwd, k);
  }

  lemma WritesOfRm(v: Volume, name: seq<byte>, r: Option<slot>)
    requires v.Valid() && IsCString(name) && r == Find(v, name)
    requires r.Some? ==> EntryAt(v.Directory(), r.value).cluster >= 2
    ensures r == None ==> Writes(v, Rm(name)) == [] && Next(v, Rm(name)) == v
    ensures r.Some? ==> Writes(v, Rm(name)) == [MarkDeleted(v.disk, v.cwd, r.value), Next(v, Rm(name)).disk]
  {
  }

  lemma FoundHasCluster(v: Volume, a: FileSystem, name: seq<byte>)
    requires Represents(v, a) && Find(v, name).Some?
    ensures EntryAt(v.Directory(), Find(v, name).value).cluster >= 2
  {
    NamedAgrees(v, a, name);
    var c := At(v.disk, In(a.cwd, Find(v, name).value)).cluster;
    OnChainAllocated(Table(v.disk), c, c);
  }

  /** The writes of a removal: the first marks the entry, the second ends the call. */
  lemma RemovalWrites(v: Volume, a: FileSystem, name: seq<byte>)
    requires Represents(v, a) && IsCString(name)
    ensures Find(v, name) == None ==> Writes(v, Rm(name)) == [] && Next(v, Rm(name)) == v
    ensures Find(v, name).Some? ==>
      Writes(v, Rm(name)) == [MarkDeleted(v.disk, v.cwd, Find(v, name).value), Next(v, Rm(name)).disk]
  {
    if Find(v, name).Some? {
      FoundHasCluster(v, a, name);
    }
    WritesOfRm(v, name, Find(v, name));
  }

  lemma AllSound(ws: seq<disk>, first: disk, second: disk, i: nat)
    requires ws == [first, second] && Sound(first) && Sound(second) && i < |ws|
    ensures Sound(ws[i])
  {
  }

  /** Wherever a removal is interrupted, the disk is sound. */
  lemma InterruptedRemoval(v: Volume, a: FileSystem, name: seq<byte>, i: nat)
    requires Represents(v, a) && IsCString(name) && i < |Writes(v, Rm(name))|
    ensures Sound(Writes(v, Rm(name))[i])
  {
    RemovalWrites(v, a, name);
    RemovalOrderIsSafe(v, a, name);
    StepSimulates(v, a, Rm(name));
    AllSound(Writes(v, Rm(name)), MarkDeleted(v.disk, v.cwd, Find(v, name).value), Next(v, Rm(name)).disk, i);
  }

  // ----- a creation

  /** Seen through directory slots: e is in slot k of the directory at p, the first slot without a live entry,
      while the FAT, where its cluster is still free, is the old one. */
  ghost predicate Half(d: disk, d': disk, p: Path, k: slot, e: Entry) {
    && Sound(d) && Resolve(d, p).Some? && !Slot(d, Resolve(d, p).value, k).Live()
    && (forall j: slot :: j < k ==> Slot(d, Resolve(d, p).value, j).Live())
    && (forall q: Path, i: slot :: Resolve(d, q).Some? ==>
          (Slot(d', Resolve(d, q).value, i) == if q == p && i == k then e else Slot(d, Resolve(d, q).value, i)))
    && |e.name| == 8 && e.name[0] != END_MARK
    && Table(d') == Table(d) && InRange(e.cluster) && Table(d)[e.cluster] == FREE
  }

  /** Every place but those under a live new entry is as it was. */
  lemma {:induction false} HalfPlaces(d: disk, d': disk, p: Path, k: slot, e: Entry, l: Path)
    requires Half(d, d', p, k, e) && (e.Live() ==> !Under(l, In(p, k)))
    ensures Resolve(d', l) == Resolve(d, l) && (Occupied(d', l) <==> Occupied(d, l))
    ensures Occupied(d, l) ==> At(d', l) == At(d, l)
  {
    if l.In? {
      HalfPlaces(d, d', p, k, e, l.dir);
    }
  }

  /** A live new entry has a free cluster. */
  lemma HalfUnsound(d: disk, d': disk, p: Path, k: slot, e: Entry)
    requires Half(d, d', p, k, e) && e.Live()
    ensures !Sound(d')
  {
    NotInItself(p, k);
    HalfPlaces(d, d', p, k, e, p);
    assert Occupied(d', In(p, k)) && At(d', In(p, k)) == e;
    if Chained(Table(d'), e.cluster) {
      OnChainAllocated(Table(d'), e.cluster, e.cluster);
    }
  }

  lemma HalfZeroTail(d: disk, d': disk, p: Path, k: slot, e: Entry, q: Path)
    requires Half(d, d', p, k, e) && !e.Live() && Resolve(d', q).Some?
    ensures ZeroTail(d'[DirSector(Resolve(d', q).value)])
  {
    HalfPlaces(d, d', p, k, e, q);
    var x := Resolve(d', q).value;
    assert ZeroTail(d[DirSector(x)]);
    forall i: slot, j: slot | i < j && EntryAt(d'[DirSector(x)], i).name[0] == END_MARK
      ensures EntryAt(d'[DirSector(x)], j).name[0] == END_MARK
    {
      assert Slot(d', x, i) == if q == p && i == k then e else Slot(d, x, i);
      assert Slot(d', x, j) == if q == p && j == k then e else Slot(d, x, j);
    }
  }

  /** An entry that is not live leaves the disk as sound as it was. */
  lemma HalfSound(d: disk, d': disk, p: Path, k: slot, e: Entry)
    requires Half(d, d', p, k, e) && !e.Live()
    ensures Sound(d')
  {
    forall l: Path | Occupied(d', l)
      ensures Occupied(d, l) && At(d', l) == At(d, l) && Chained(Table(d'), At(d', l).cluster)
    {
      HalfPlaces(d, d', p, k, e, l);
    }
    forall l: Path, m: Path | Occupied(d', l) && Occupied(d', m) && l != m
      ensures Apart(ChainAt(d', l), ChainAt(d', m))
    {
      assert Apart(ChainAt(d, l), ChainAt(d, m));
    }
    forall q: Path | Resolve(d', q).Some?
      ensures ZeroTail(d'[DirSector(Resolve(d', q).value)])
    {
      HalfZeroTail(d, d', p, k, e, q);
    }
  }

  /** d' differs from d in the new entry, and at most in the sector of the cluster that it gets. */
  ghost predicate HalfWritten(d: disk, d': disk, cwd: u16, k: slot, name: seq<byte>, attributes: byte, c: u16,
                              size: u32)
    requires IsDir(cwd) && |name| == 11
  {
    && d'[DirSector(cwd)] == PutEntry(d[DirSector(cwd)], k, name, attributes, c, size)
    && d'[FAT_SECTOR] == d[FAT_SECTOR]
    && forall x: u16 :: IsDir(x) && x != cwd && x != c ==> d'[DirSector(x)] == d[DirSector(x)]
  }

  lemma LinkedHalf(d: disk, d': disk, p: Path, k: slot, name: seq<byte>, attributes: byte, c: u16, size: u32,
                   body: sector)
    requires Ready(d, p, k, name, attributes, c, body)
    requires HalfWritten(d, d', Resolve(d, p).value, k, name, attributes, c, size)
    ensures Half(d, d', p, k, Entry(name[..8], name[8..], attributes, c, size))
  {
    var cwd := Resolve(d, p).value;
    var e := Entry(name[..8], name[8..], attributes, c, size);
    forall q: Path, i: slot | Resolve(d, q).Some?
      ensures Slot(d', Resolve(d, q).value, i) == if q == p && i == k then e else Slot(d, Resolve(d, q).value, i)
    {
      ReachableAllocated(d, q);
      if Resolve(d, q) == Resolve(d, p) {
        PutEntryAt(d[DirSector(cwd)], k, name, attributes, c, size, i);
        DirectoriesFormATree(d, q, p);
      }
    }
  }

  lemma HalfDecides(d: disk, d': disk, p: Path, k: slot, e: Entry)
    requires Half(d, d', p, k, e)
    ensures Sound(d') <==> e.name[0] == DELETED_MARK
  {
    if e.Live() {
      HalfUnsound(d, d', p, k, e);
    } else {
      HalfSound(d, d', p, k, e);
    }
  }

  lemma HalfSectors(d: disk, cwd: u16, k: slot, name: seq<byte>, attributes: byte, c: u16, size: u32, body: sector)
    requires IsDir(cwd) && InRange(c) && c != cwd && |name| == 11
    ensures var linked := LinkEntry(d, cwd, k, name, attributes, c, size);
      && HalfWritten(d, linked, cwd, k, name, attributes, c, size)
      && HalfWritten(d, Fill(linked, c, body), cwd, k, name, attributes, c, size)
  {
  }

  lemma CreationHalves(d: disk, p: Path, k: slot, name: seq<byte>, attributes: byte, c: u16, size: u32, body: sector)
    requires Ready(d, p, k, name, attributes, c, body)
    ensures var ws := InstallWrites(d, Resolve(d, p).value, k, name, attributes, c, size, body);
      var e := Entry(name[..8], name[8..], attributes, c, size);
      Half(d, ws[0], p, k, e) && Half(d, ws[1], p, k, e)
  {
    var linked := LinkEntry(d, Resolve(d, p).value, k, name, attributes, c, size);
    ReachableAllocated(d, p);
    HalfSectors(d, Resolve(d, p).value, k, name, attributes, c, size, body);
    LinkedHalf(d, linked, p, k, name, attributes, c, size, body);
    LinkedHalf(d, Fill(linked, c, body), p, k, name, attributes, c, size, body);
  }

  /** write_file and make_directory link before they allocate, so the disk after their first write and the one
      after their second are sound if and only if the new name begins with the deletion mark. */
  lemma CreationOrderIsUnsafe(d: disk, p: Path, k: slot, name: seq<byte>, attributes: byte, c: u16, size: u32,
                              body: sector)
    requires Ready(d, p, k, name, attributes, c, body)
    ensures var ws := InstallWrites(d, Resolve(d, p).value, k, name, attributes, c, size, body);
      (Sound(ws[0]) <==> name[0] == DELETED_MARK) && (Sound(ws[1]) <==> name[0] == DELETED_MARK)
  {
    var e := Entry(name[..8], name[8..], attributes, c, size);
    var ws := InstallWrites(d, Resolve(d, p).value, k, name, attributes, c, size, body);
    CreationHalves(d, p, k, name, attributes, c, size, body);
    HalfDecides(d, ws[0], p, k, e);
    HalfDecides(d, ws[1], p, k, e);
  }

  /** The three writes of a creation that succeeds; one that fails writes nothing. */
  lemma InterruptedCreation(v: Volume, a: FileSystem, name: seq<byte>, attributes: byte, size: u32, body: sector)
    requires Represents(v, a) && |name| == 11 && name[0] != END_MARK
    requires attributes == DIRECTORY ==> body == ZeroSector()
    ensures var ws, r := CreateWrites(v, name, attributes, size, body), Create(v, name, attributes, size, body);
      && (r.1 != Stored ==> ws == [] && r.0 == v)
      && (r.1 == Stored ==>
        |ws| == 3 && ws[2] == r.0.disk
        && (Sound(ws[0]) <==> name[0] == DELETED_MARK) && (Sound(ws[1]) <==> name[0] == DELETED_MARK))
  {
    if Create(v, name, attributes, size, body).1 == Stored {
      var k, c := FreeSlotFrom(v.Directory(), 0).value, FreeClusterFrom(Table(v.disk), 2);
      CreationOrderIsUnsafe(v.disk, a.cwd, k, name, attributes, c, size, body);
    }
  }
}
