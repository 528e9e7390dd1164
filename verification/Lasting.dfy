/** What lasts over a run of calls: entries that no call removes, and names that no call hides. */
module Lasting {
  import opened Bytes
  import opened Layout
  import opened Tree
  import opened Volume
  import opened Removal
  import opened Simulation
  import opened Consequences

  // ----- an entry

  /** The call removes the entry at l, or a directory above it. */
  ghost predicate Takes(a: FileSystem, c: Command, l: Path) {
    c.Rm? && Named(a, c.name).Some? && Under(l, In(a.cwd, Named(a, c.name).value))
  }

  lemma AddKeeps(a: FileSystem, n: Node, l: Path)
    requires |n.name| == 8 && l in a.tree
    ensures l in Add(a, n).0.tree && Add(a, n).0.tree[l] == a.tree[l]
  {
    FirstFreeIsFree(a.tree, a.cwd, 0);
  }

  lemma PerformAdds(a: FileSystem, c: Command)
    requires Proper(c) && (c.Write? || c.Mkdir?)
    ensures Perform(a, c) == Add(a, NodeOf(c))
  {
  }

  /** One call keeps an entry as it is exactly if it does not take it. */
  lemma NodeStep(a: FileSystem, c: Command, l: Path)
    requires Proper(c) && l in a.tree
    ensures l in Perform(a, c).0.tree <==> !Takes(a, c, l)
    ensures !Takes(a, c, l) ==> Perform(a, c).0.tree[l] == a.tree[l]
  {
    if c.Write? || c.Mkdir? {
      PerformAdds(a, c);
      AddKeeps(a, NodeOf(c), l);
    }
  }

  ghost predicate NeverTaken(a: FileSystem, cs: seq<Command>, l: Path)
    requires forall c :: c in cs ==> Proper(c)
    decreases |cs|
  {
    cs == [] ||
    (assert cs[0] in cs; !Takes(a, cs[0], l) && NeverTaken(Perform(a, cs[0]).0, cs[1..], l))
  }

  /** Over a run, an entry stays as it is if no call takes it. */
  lemma {:induction false} NodeLasts(a: FileSystem, cs: seq<Command>, l: Path)
    requires (forall c :: c in cs ==> Proper(c)) && l in a.tree && NeverTaken(a, cs, l)
    ensures l in RunAbstract(a, cs).tree && RunAbstract(a, cs).tree[l] == a.tree[l]
    decreases |cs|
  {
    if cs != [] {
      assert cs[0] in cs;
      NodeStep(a, cs[0], l);
      NodeLasts(Perform(a, cs[0]).0, cs[1..], l);
    }
  }

  // ----- a name

  /** The call adds an entry of the name to the directory at q, in a slot before slot k. */
  ghost predicate Hides(a: FileSystem, c: Command, q: Path, k: slot, padded: seq<byte>)
    requires Proper(c) && |padded| == 8
  {
    && (c.Write? || c.Mkdir?) && a.cwd == q && Matches(padded, NodeOf(c).name)
    && a.free > 0 && FirstFree(a.tree, q, 0).Some? && FirstFree(a.tree, q, 0).value < k
  }

  lemma {:induction false} LookupPrunedKeeps(t: tree, m: Path, q: Path, padded: seq<byte>, k: slot, i: nat)
    requires i <= 16 && |padded| == 8 && Lookup(t, q, padded, i) == Some(k) && !Under(In(q, k), m)
    ensures Lookup(Pruned(t, m), q, padded, i) == Some(k)
    decreases 16 - i
  {
    if i < k {
      LookupPrunedKeeps(t, m, q, padded, k, i + 1);
    }
  }

  lemma MatchesAreLive(padded: seq<byte>, name: seq<byte>)
    requires |padded| == 8 && |name| == 8 && Matches(padded, name)
    ensures name[0] != DELETED_MARK
  {
    MatchesExactly(padded, name);
    assert padded[0] in padded;
  }

  /** Where the search finds the name after an entry was added. */
  lemma AddFinds(a: FileSystem, n: Node, q: Path, padded: seq<byte>, k: slot)
    requires |n.name| == 8 && |padded| == 8 && Lookup(a.tree, q, padded, 0) == Some(k)
    ensures Lookup(Add(a, n).0.tree, q, padded, 0) == Some(k)
      <==> !(a.cwd == q && Matches(padded, n.name)
             && a.free > 0 && FirstFree(a.tree, q, 0).Some? && FirstFree(a.tree, q, 0).value < k)
  {
    if Add(a, n).1 == Stored {
      FirstFreeIsFree(a.tree, a.cwd, 0);
      var j := FirstFree(a.tree, a.cwd, 0).value;
      if a.cwd != q || !Matches(padded, n.name) {
        LookupAdded(a.tree, In(a.cwd, j), n, q, padded, 0);
      } else {
        MatchesAreLive(padded, n.name);
        if j < k {
          FoundLater(a.tree, q, j, n, padded, 0);
        } else {
          FoundEarlier(a.tree, q, j, n, padded, 0);
        }
      }
    }
  }

  /** After one call the search finds the same entry exactly if the call neither takes nor hides it. */
  lemma FoundStep(a: FileSystem, c: Command, q: Path, k: slot, padded: seq<byte>)
    requires Proper(c) && |padded| == 8 && Lookup(a.tree, q, padded, 0) == Some(k)
    ensures Lookup(Perform(a, c).0.tree, q, padded, 0) == Some(k)
      <==> !Takes(a, c, In(q, k)) && !Hides(a, c, q, k, padded)
  {
    if c.Write? || c.Mkdir? {
      PerformAdds(a, c);
      AddFinds(a, NodeOf(c), q, padded, k);
    } else if c.Rm? && Named(a, c.name).Some? {
      NodeStep(a, c, In(q, k));
      if !Takes(a, c, In(q, k)) {
        LookupPrunedKeeps(a.tree, In(a.cwd, Named(a, c.name).value), q, padded, k, 0);
      }
    }
  }

  ghost predicate Stays(a: FileSystem, cs: seq<Command>, q: Path, k: slot, padded: seq<byte>)
    requires (forall c :: c in cs ==> Proper(c)) && |padded| == 8
    decreases |cs|
  {
    cs == [] ||
    (assert cs[0] in cs;
     !Takes(a, cs[0], In(q, k)) && !Hides(a, cs[0], q, k, padded) && Stays(Perform(a, cs[0]).0, cs[1..], q, k, padded))
  }

  /** Over a run the search finds the same entry, unchanged, if no call takes or hides it. */
  lemma {:induction false} FoundLasts(a: FileSystem, cs: seq<Command>, q: Path, k: slot, padded: seq<byte>)
    requires (forall c :: c in cs ==> Proper(c)) && |padded| == 8
    requires Lookup(a.tree, q, padded, 0) == Some(k) && Stays(a, cs, q, k, padded)
    ensures Lookup(RunAbstract(a, cs).tree, q, padded, 0) == Some(k)
    ensures RunAbstract(a, cs).tree[In(q, k)] == a.tree[In(q, k)]
    decreases |cs|
  {
    if cs != [] {
      assert cs[0] in cs;
      NodeStep(a, cs[0], In(q, k));
      FoundStep(a, cs[0], q, k, padded);
      FoundLasts(Perform(a, cs[0]).0, cs[1..], q, k, padded);
    }
  }

  // ----- what cat shows

  lemma DirectoryIsThere(d: disk, q: Path, k: slot)
    requires AllChained(d) && In(q, k) in View(d)
    ensures Resolve(d, q).Some?
  {
  }

  /** Over every run, in whatever directories it takes place, cat shows of a file what it showed before, if no call
      takes the file or hides its name. */
  lemma FileLasts(v: Volume, a: FileSystem, cs: seq<Command>, q: Path, k: slot, name: seq<byte>)
    requires Represents(v, a) && (forall c :: c in cs ==> Proper(c)) && IsCString(name)
    requires Lookup(a.tree, q, Pad(name, 8), 0) == Some(k) && a.tree[In(q, k)].File?
    requires Stays(a, cs, q, k, Pad(name, 8))
    ensures Safe(v) && Resolve(v.disk, q).Some? && Resolve(Run(v, cs).disk, q).Some?
    ensures TextIn(Run(v, cs), q, name) == TextIn(v, q, name) == Shown(a.tree[In(q, k)].pieces)
  {
    RunSimulates(v, a, cs);
    FoundLasts(a, cs, q, k, Pad(name, 8));
    DirectoryIsThere(v.disk, q, k);
    DirectoryIsThere(Run(v, cs).disk, q, k);
    TextInView(v, q, name);
    TextInView(Run(v, cs), q, name);
  }
}
