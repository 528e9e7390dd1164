/** What marking an entry deleted and freeing its chain do to the directory tree. */
module Removal {
  import opened Bytes
  import opened Layout
  import opened Chains
  import opened Tree
  import opened Volume
  import opened Creation

  /** l is m or inside the directory at m. */
  predicate Under(l: Path, m: Path) {
    l == m || (l.In? && Under(l.dir, m))
  }

  /** The directory at p lost its entry k; the table still agrees with the old one off the chain of that entry. */
  ghost predicate Cut(d: disk, d': disk, p: Path, k: slot) {
    && Sound(d) && Occupied(d, In(p, k))
    && (forall q: Path, i: slot :: Resolve(d, q).Some? && !(q == p && i == k) ==>
          Slot(d', Resolve(d, q).value, i) == Slot(d, Resolve(d, q).value, i))
    && Slot(d', Resolve(d, p).value, k).name[0] == DELETED_MARK
    && (forall x: u16 :: InRange(x) && x != Resolve(d, p).value ==> d'[DataSector(x)] == d[DataSector(x)])
    && (forall x: u16 :: x < 256 && x !in ChainAt(d, In(p, k)) ==> Table(d')[x] == Table(d)[x])
  }

  lemma {:induction false} UnderIsDeeper(l: Path, m: Path)
    requires Under(l, m)
    ensures l == m || m < l
  {
    if l != m {
      UnderIsDeeper(l.dir, m);
    }
  }

  /** Everything under the lost entry is gone, everything else is where it was. */
  lemma {:induction false} CutPlaces(d: disk, d': disk, p: Path, k: slot, l: Path)
    requires Cut(d, d', p, k)
    ensures Under(l, In(p, k)) ==> Resolve(d', l) == None && !Occupied(d', l)
    ensures !Under(l, In(p, k)) ==>
      && Resolve(d', l) == Resolve(d, l)
      && (Occupied(d', l) <==> Occupied(d, l))
      && (Occupied(d, l) ==> At(d', l) == At(d, l))
  {
    if l.In? {
      CutPlaces(d, d', p, k, l.dir);
    }
  }

  lemma CutChain(d: disk, d': disk, p: Path, k: slot, l: Path)
    requires Cut(d, d', p, k) && Occupied(d', l)
    ensures !Under(l, In(p, k)) && Occupied(d, l) && At(d', l) == At(d, l)
    ensures Chained(Table(d'), At(d', l).cluster) && ChainAt(d', l) == ChainAt(d, l)
  {
    CutPlaces(d, d', p, k, l);
    var ch := ChainAt(d, l);
    assert Apart(ch, ChainAt(d, In(p, k)));
    ChainFrame(Table(d), Table(d'), At(d, l).cluster);
  }

  lemma CutNode(d: disk, d': disk, p: Path, k: slot, l: Path)
    requires Cut(d, d', p, k) && Occupied(d', l)
    ensures Occupied(d, l) && Chained(Table(d'), At(d', l).cluster) && NodeAt(d', l) == NodeAt(d, l)
  {
    CutChain(d, d', p, k, l);
    var ch := ChainAt(d, l);
    if !At(d, l).IsDirectory() {
      if p.In? {
        ResolveOccupied(d, p);
        assert Apart(ChainAt(d, p), ch);
      }
      forall i | 0 <= i < |ch|
        ensures d'[DataSector(ch[i])] == d[DataSector(ch[i])]
      {
        DirectoryApart(Table(d), Resolve(d, p).value, At(d, l).cluster, ch[i]);
      }
      assert Pieces(d', ch) == Pieces(d, ch);
    }
  }

  lemma CutZeroTail(d: disk, d': disk, p: Path, k: slot, q: Path)
    requires Cut(d, d', p, k) && Resolve(d', q).Some?
    ensures ZeroTail(d'[DirSector(Resolve(d', q).value)])
  {
    CutPlaces(d, d', p, k, q);
    var x := Resolve(d', q).value;
    assert ZeroTail(d[DirSector(x)]);
    forall i: slot, j: slot | i < j && EntryAt(d'[DirSector(x)], i).name[0] == END_MARK
      ensures EntryAt(d'[DirSector(x)], j).name[0] == END_MARK
    {
      assert !(q == p && i == k);
      assert Slot(d', x, i) == Slot(d, x, i);
      assert Slot(d, x, j).name[0] == END_MARK;
      assert !(q == p && j == k);
      assert Slot(d', x, j) == Slot(d, x, j);
    }
  }

  lemma CutSound(d: disk, d': disk, p: Path, k: slot)
    requires Cut(d, d', p, k)
    ensures Sound(d')
  {
    forall l: Path | Occupied(d', l)
      ensures Chained(Table(d'), At(d', l).cluster)
    {
      CutChain(d, d', p, k, l);
    }
    forall l: Path, m: Path | Occupied(d', l) && Occupied(d', m) && l != m
      ensures Apart(ChainAt(d', l), ChainAt(d', m))
    {
      CutChain(d, d', p, k, l);
      CutChain(d, d', p, k, m);
    }
    forall q: Path | Resolve(d', q).Some?
      ensures ZeroTail(d'[DirSector(Resolve(d', q).value)])
    {
      CutZeroTail(d, d', p, k, q);
    }
  }

  ghost function Pruned(t: tree, m: Path): tree {
    imap l: Path | l in t && !Under(l, m) :: t[l]
  }

  /** The view loses exactly the subtree at the lost entry. */
  lemma CutView(d: disk, d': disk, p: Path, k: slot)
    requires Cut(d, d', p, k)
    ensures AllChained(d') && View(d') == Pruned(View(d), In(p, k))
  {
    CutSound(d, d', p, k);
    var v, g := View(d'), Pruned(View(d), In(p, k));
    forall l: Path
      ensures l in v <==> l in g
      ensures l in v ==> v[l] == g[l]
    {
      CutPlaces(d, d', p, k, l);
      if Occupied(d', l) {
        CutNode(d, d', p, k, l);
      }
    }
    SameTree(v, g);
  }

  // ----- the two sector writes of remove_file

  lemma MarkedSector(d: disk, c: u16, k: slot, x: u16)
    requires IsDir(c) && IsDir(x)
    ensures MarkDeleted(d, c, k)[DirSector(x)] == if x == c then Delete(d[DirSector(c)], k) else d[DirSector(x)]
  {
  }

  lemma MarkedSlots(d: disk, p: Path, k: slot, q: Path, i: slot)
    requires Sound(d) && Resolve(d, p).Some? && Resolve(d, q).Some? && !(q == p && i == k)
    ensures Slot(MarkDeleted(d, Resolve(d, p).value, k), Resolve(d, q).value, i) == Slot(d, Resolve(d, q).value, i)
  {
    MarkedSector(d, Resolve(d, p).value, k, Resolve(d, q).value);
    if Resolve(d, q) == Resolve(d, p) {
      DirectoriesFormATree(d, q, p);
      DeleteAt(d[DirSector(Resolve(d, p).value)], k, i);
    }
  }

  /** Between its two writes, with the entry marked and the chain still allocated, the disk is a cut. */
  lemma MarkedCuts(d: disk, p: Path, k: slot)
    requires Sound(d) && Occupied(d, In(p, k))
    ensures Cut(d, MarkDeleted(d, Resolve(d, p).value, k), p, k)
  {
    var cwd := Resolve(d, p).value;
    var d' := MarkDeleted(d, cwd, k);
    forall q: Path, i: slot | Resolve(d, q).Some? && !(q == p && i == k)
      ensures Slot(d', Resolve(d, q).value, i) == Slot(d, Resolve(d, q).value, i)
    {
      MarkedSlots(d, p, k, q, i);
    }
    DeleteAt(d[DirSector(cwd)], k, k);
    assert d'[FAT_SECTOR] == d[FAT_SECTOR];
  }

  /** Rewriting the FAT alone, off the chains that are left, keeps the cut. */
  lemma FreedCuts(d: disk, d1: disk, p: Path, k: slot, f: fat)
    requires Cut(d, d1, p, k)
    requires forall x: u16 :: x < 256 && x !in ChainAt(d, In(p, k)) ==> f[x] == Table(d)[x]
    ensures Cut(d, d1[FAT_SECTOR := FatSector(f)], p, k)
    ensures Table(d1[FAT_SECTOR := FatSector(f)]) == f
  {
    var d2 := d1[FAT_SECTOR := FatSector(f)];
    FatSectorStores(f);
    assert forall x: u16 :: IsDir(x) ==> d2[DirSector(x)] == d1[DirSector(x)];
    assert forall q: Path, i: slot :: Resolve(d, q).Some? ==>
      Slot(d2, Resolve(d, q).value, i) == Slot(d1, Resolve(d, q).value, i);
  }

  /** So it is after both. */
  lemma RemovedCuts(d: disk, p: Path, k: slot)
    requires Sound(d) && Occupied(d, In(p, k))
    ensures Cut(d, FreeClustersFrom(MarkDeleted(d, Resolve(d, p).value, k), At(d, In(p, k)).cluster), p, k)
    ensures Table(FreeClustersFrom(MarkDeleted(d, Resolve(d, p).value, k), At(d, In(p, k)).cluster))
         == Freed(Table(d), At(d, In(p, k)).cluster)
  {
    var c := At(d, In(p, k)).cluster;
    MarkedCuts(d, p, k);
    ChainReached(Table(d), c);
    FreedCuts(d, MarkDeleted(d, Resolve(d, p).value, k), p, k, Freed(Table(d), c));
  }
}
