/** What linking a new entry does to the directory tree. */
module Creation {
  import opened Bytes
  import opened Layout
  import opened Chains
  import opened Tree
  import opened Volume

  /** Seen through directory slots: e is new in slot k of the directory at p, the first slot there without
      a live entry, and the cluster of e, if e is a directory, holds no entries. */
  ghost predicate Linked(d: disk, d': disk, p: Path, k: slot, e: Entry) {
    && Resolve(d, p).Some? && !Slot(d, Resolve(d, p).value, k).Live()
    && (forall j: slot :: j < k ==> Slot(d, Resolve(d, p).value, j).Live())
    && |e.name| == 8 && e.name[0] != END_MARK
    && (forall q: Path, i: slot :: Resolve(d, q).Some? ==>
          (Slot(d', Resolve(d, q).value, i) == if q == p && i == k then e else Slot(d, Resolve(d, q).value, i)))
    && (e.IsDirectory() ==> InRange(e.cluster) && forall i: slot :: Slot(d', e.cluster, i).name[0] == END_MARK)
  }

  /** Seen through the whole disk: the entry e was linked, and its cluster, which was free, was filled and allocated. */
  ghost predicate Grown(d: disk, d': disk, p: Path, k: slot, e: Entry, body: sector) {
    && Sound(d) && Linked(d, d', p, k, e)
    && InRange(e.cluster) && Table(d)[e.cluster] == FREE
    && Table(d') == Table(d)[e.cluster := LAST_CLUSTER]
    && d'[DataSector(e.cluster)] == body
    && (forall x: u16 :: InRange(x) && x != e.cluster && x != Resolve(d, p).value ==>
          d'[DataSector(x)] == d[DataSector(x)])
  }

  /** Every place but the new one is as it was; the new one is occupied exactly if its entry is live. */
  lemma {:induction false} LinkedPlaces(d: disk, d': disk, p: Path, k: slot, e: Entry, l: Path)
    requires Linked(d, d', p, k, e)
    ensures l == In(p, k) ==>
      && !Occupied(d, l)
      && (Occupied(d', l) <==> e.Live())
      && (Occupied(d', l) ==> At(d', l) == e)
      && Resolve(d', l) == (if e.Live() && e.IsDirectory() then Some(e.cluster) else None)
    ensures l != In(p, k) ==>
      && Resolve(d', l) == Resolve(d, l)
      && (Occupied(d', l) <==> Occupied(d, l))
      && (Occupied(d, l) ==> At(d', l) == At(d, l))
  {
    if l.In? {
      LinkedPlaces(d, d', p, k, e, l.dir);
    }
  }

  /** The node that the new entry shows in the abstract view. */
  function NewNode(e: Entry, body: sector): (n: Node)
    requires |e.name| == 8
    ensures |n.name| == 8 && n.Span() == 1
  {
    if e.IsDirectory() then Folder(e.name, e.ext, 1) else File(e.name, e.ext, e.attributes, e.size, [Text(body)])
  }

  /** Old places keep their chains. */
  lemma OldChain(d: disk, d': disk, p: Path, k: slot, e: Entry, body: sector, l: Path)
    requires Grown(d, d', p, k, e, body) && Occupied(d, l)
    ensures l != In(p, k) && Occupied(d', l) && At(d', l) == At(d, l)
    ensures Chained(Table(d'), At(d', l).cluster) && ChainAt(d', l) == ChainAt(d, l)
    ensures e.cluster !in ChainAt(d, l)
  {
    LinkedPlaces(d, d', p, k, e, l);
    ChainKept(Table(d), At(d, l).cluster, e.cluster, LAST_CLUSTER);
  }

  /** The clusters of an old place show what they did, unless it is the directory that got the entry. */
  lemma OldPieces(d: disk, d': disk, p: Path, k: slot, e: Entry, body: sector, l: Path)
    requires Grown(d, d', p, k, e, body) && Occupied(d, l) && l != p
    ensures Pieces(d', ChainAt(d, l)) == Pieces(d, ChainAt(d, l))
  {
    OldChain(d, d', p, k, e, body, l);
    var ch := ChainAt(d, l);
    if p.In? {
      ResolveOccupied(d, p);
      assert Apart(ChainAt(d, p), ch);
    }
    forall i | 0 <= i < |ch|
      ensures d'[DataSector(ch[i])] == d[DataSector(ch[i])]
    {
      DirectoryApart(Table(d), Resolve(d, p).value, At(d, l).cluster, ch[i]);
    }
  }

  /** What cat shows of an old place, which may be a directory, is the same. */
  lemma OldTexts(d: disk, d': disk, p: Path, k: slot, e: Entry, body: sector, l: Path)
    requires Grown(d, d', p, k, e, body) && Occupied(d, l) && l != p
    ensures Occupied(d', l) && Ends(d, At(d, l).cluster) && Ends(d', At(d', l).cluster)
    ensures TextsFrom(d', At(d', l).cluster) == TextsFrom(d, At(d, l).cluster)
  {
    OldChain(d, d', p, k, e, body, l);
    OldPieces(d, d', p, k, e, body, l);
    ChainIsWalk(d, At(d, l).cluster);
    ChainIsWalk(d', At(d', l).cluster);
  }

  /** Old places keep their contents. */
  lemma OldNode(d: disk, d': disk, p: Path, k: slot, e: Entry, body: sector, l: Path)
    requires Grown(d, d', p, k, e, body) && Occupied(d, l)
    ensures Occupied(d', l) && Chained(Table(d'), At(d', l).cluster)
    ensures NodeAt(d', l) == NodeAt(d, l)
  {
    OldChain(d, d', p, k, e, body, l);
    if !At(d, l).IsDirectory() {
      if p.In? {
        ResolveOccupied(d, p);
      }
      OldPieces(d, d', p, k, e, body, l);
    }
  }

  /** The new place owns exactly the cluster it was given. */
  lemma NewPlace(d: disk, d': disk, p: Path, k: slot, e: Entry, body: sector)
    requires Grown(d, d', p, k, e, body) && e.Live()
    ensures Occupied(d', In(p, k)) && At(d', In(p, k)) == e
    ensures Chained(Table(d'), e.cluster) && ChainAt(d', In(p, k)) == [e.cluster]
    ensures NodeAt(d', In(p, k)) == NewNode(e, body)
  {
    LinkedPlaces(d, d', p, k, e, In(p, k));
    ChainUnique(Table(d'), e.cluster, [e.cluster]);
    assert Pieces(d', [e.cluster]) == [Text(body)];
  }

  lemma GrownZeroTail(d: disk, d': disk, p: Path, k: slot, e: Entry, body: sector, q: Path)
    requires Grown(d, d', p, k, e, body) && Resolve(d', q).Some?
    ensures ZeroTail(d'[DirSector(Resolve(d', q).value)])
  {
    LinkedPlaces(d, d', p, k, e, q);
    var x := Resolve(d', q).value;
    forall i: slot, j: slot | i < j && EntryAt(d'[DirSector(x)], i).name[0] == END_MARK
      ensures EntryAt(d'[DirSector(x)], j).name[0] == END_MARK
    {
      if q == In(p, k) {
        assert Slot(d', x, j).name[0] == END_MARK;
      } else {
        assert ZeroTail(d[DirSector(x)]);
        assert Slot(d', x, i) == if q == p && i == k then e else Slot(d, x, i);
        assert Slot(d', x, j) == if q == p && j == k then e else Slot(d, x, j);
      }
    }
  }

  lemma GrownChained(d: disk, d': disk, p: Path, k: slot, e: Entry, body: sector)
    requires Grown(d, d', p, k, e, body)
    ensures AllChained(d')
  {
    forall l: Path | Occupied(d', l)
      ensures Chained(Table(d'), At(d', l).cluster)
    {
      LinkedPlaces(d, d', p, k, e, l);
      if l == In(p, k) {
        NewPlace(d, d', p, k, e, body);
      } else {
        OldChain(d, d', p, k, e, body, l);
      }
    }
  }

  lemma GrownSound(d: disk, d': disk, p: Path, k: slot, e: Entry, body: sector)
    requires Grown(d, d', p, k, e, body)
    ensures Sound(d')
  {
    GrownChained(d, d', p, k, e, body);
    forall l: Path, m: Path | Occupied(d', l) && Occupied(d', m) && l != m
      ensures Apart(ChainAt(d', l), ChainAt(d', m))
    {
      LinkedPlaces(d, d', p, k, e, l);
      LinkedPlaces(d, d', p, k, e, m);
      if l == In(p, k) {
        NewPlace(d, d', p, k, e, body);
        OldChain(d, d', p, k, e, body, m);
      } else {
        OldChain(d, d', p, k, e, body, l);
        if m == In(p, k) {
          NewPlace(d, d', p, k, e, body);
        } else {
          OldChain(d, d', p, k, e, body, m);
        }
      }
    }
    forall q: Path | Resolve(d', q).Some?
      ensures ZeroTail(d'[DirSector(Resolve(d', q).value)])
    {
      GrownZeroTail(d, d', p, k, e, body, q);
    }
  }

  lemma GrownNode(d: disk, d': disk, p: Path, k: slot, e: Entry, body: sector, l: Path)
    requires Grown(d, d', p, k, e, body)
    ensures Occupied(d', l) <==> Occupied(d, l) || (l == In(p, k) && e.Live())
    ensures Occupied(d', l) ==> Chained(Table(d'), At(d', l).cluster)
    ensures l == In(p, k) && e.Live() ==> NodeAt(d', l) == NewNode(e, body)
    ensures Occupied(d, l) ==> l != In(p, k) && NodeAt(d', l) == NodeAt(d, l)
  {
    LinkedPlaces(d, d', p, k, e, l);
    if l == In(p, k) {
      if e.Live() {
        NewPlace(d, d', p, k, e, body);
      }
    } else if Occupied(d, l) {
      OldNode(d, d', p, k, e, body, l);
    }
  }

  ghost function GrownTree(t: tree, p: Path, k: slot, e: Entry, body: sector): tree
    requires |e.name| == 8
  {
    if e.Live() then t[In(p, k) := NewNode(e, body)] else t
  }

  /** The view gains exactly the new node, or nothing if the new name begins with the deletion mark. */
  lemma GrownView(d: disk, d': disk, p: Path, k: slot, e: Entry, body: sector)
    requires Grown(d, d', p, k, e, body)
    ensures AllChained(d')
    ensures View(d') == GrownTree(View(d), p, k, e, body)
  {
    GrownChained(d, d', p, k, e, body);
    var v, g := View(d'), GrownTree(View(d), p, k, e, body);
    forall l: Path
      ensures l in v <==> l in g
      ensures l in v ==> v[l] == g[l]
    {
      GrownNode(d, d', p, k, e, body, l);
    }
    SameTree(v, g);
  }

  // ----- the three sector writes of write_file and make_directory

  /** p leads to the directory that gets the entry, k is its first slot without a live entry, c a free cluster. */
  ghost predicate Ready(d: disk, p: Path, k: slot, name: seq<byte>, attributes: byte, c: u16, body: sector) {
    && Sound(d)
    && Resolve(d, p).Some? && !Slot(d, Resolve(d, p).value, k).Live()
    && (forall j: slot :: j < k ==> Slot(d, Resolve(d, p).value, j).Live())
    && InRange(c) && Table(d)[c] == FREE
    && |name| == 11 && name[0] != END_MARK
    && (attributes == DIRECTORY ==> body == ZeroSector())
  }

  lemma InstalledSectors(d: disk, cwd: u16, k: slot, name: seq<byte>, attributes: byte, c: u16, size: u32, body: sector)
    requires IsDir(cwd) && InRange(c) && c != cwd && |name| == 11
    ensures var d' := Install(d, cwd, k, name, attributes, c, size, body);
      && Table(d') == Table(d)[c := LAST_CLUSTER]
      && d'[DirSector(cwd)] == PutEntry(d[DirSector(cwd)], k, name, attributes, c, size)
      && d'[DataSector(c)] == body
      && (forall x: u16 :: IsDir(x) && x != cwd && x != c ==> d'[DirSector(x)] == d[DirSector(x)])
  {
  }

  lemma InstalledSlots(d: disk, p: Path, k: slot, name: seq<byte>, attributes: byte, c: u16, size: u32, body: sector,
                       q: Path, i: slot)
    requires Sound(d) && Resolve(d, p).Some? && Resolve(d, q).Some? && |name| == 11
    requires InRange(c) && c != Resolve(d, p).value && c != Resolve(d, q).value
    ensures Slot(Install(d, Resolve(d, p).value, k, name, attributes, c, size, body), Resolve(d, q).value, i)
         == if q == p && i == k then Entry(name[..8], name[8..], attributes, c, size)
            else Slot(d, Resolve(d, q).value, i)
  {
    var cwd := Resolve(d, p).value;
    InstalledSectors(d, cwd, k, name, attributes, c, size, body);
    if Resolve(d, q) == Resolve(d, p) {
      PutEntryAt(d[DirSector(cwd)], k, name, attributes, c, size, i);
      DirectoriesFormATree(d, q, p);
    }
  }

  lemma InstalledLinks(d: disk, p: Path, k: slot, name: seq<byte>, attributes: byte, c: u16, size: u32, body: sector)
    requires Ready(d, p, k, name, attributes, c, body)
    ensures Linked(d, Install(d, Resolve(d, p).value, k, name, attributes, c, size, body), p, k,
                   Entry(name[..8], name[8..], attributes, c, size))
  {
    var cwd := Resolve(d, p).value;
    var d' := Install(d, cwd, k, name, attributes, c, size, body);
    var e := Entry(name[..8], name[8..], attributes, c, size);
    ReachableAllocated(d, p);
    InstalledSectors(d, cwd, k, name, attributes, c, size, body);
    forall q: Path, i: slot | Resolve(d, q).Some?
      ensures Slot(d', Resolve(d, q).value, i) == if q == p && i == k then e else Slot(d, Resolve(d, q).value, i)
    {
      ReachableAllocated(d, q);
      InstalledSlots(d, p, k, name, attributes, c, size, body, q, i);
    }
    forall i: slot
      ensures attributes == DIRECTORY ==> Slot(d', c, i).name[0] == END_MARK
    {
      ZeroEntry(i);
    }
  }

  /** The three sector writes are an installation of the new entry. */
  lemma InstalledGrows(d: disk, p: Path, k: slot, name: seq<byte>, attributes: byte, c: u16, size: u32, body: sector)
    requires Ready(d, p, k, name, attributes, c, body)
    ensures Grown(d, Install(d, Resolve(d, p).value, k, name, attributes, c, size, body), p, k,
                  Entry(name[..8], name[8..], attributes, c, size), body)
  {
    ReachableAllocated(d, p);
    InstalledLinks(d, p, k, name, attributes, c, size, body);
    InstalledSectors(d, Resolve(d, p).value, k, name, attributes, c, size, body);
    assert forall x: u16 :: InRange(x) ==> DataSector(x) == DirSector(x);
  }
}
