/** Cluster chains in the FAT, and what freeing one does. */
module Chains {
  import opened Bytes
  import opened Layout

  predicate InRange(c: u16) {
    2 <= c < 256
  }

  /** ch is the complete chain that starts at cluster c: inside the table, without
      repetition, linked by the table and ended by an end-of-chain mark. */
  ghost predicate IsChain(f: fat, c: u16, ch: seq<u16>) {
    && ch != [] && ch[0] == c
    && (forall i :: 0 <= i < |ch| ==> InRange(ch[i]))
    && (forall i, j :: 0 <= i < j < |ch| ==> ch[i] != ch[j])
    && (forall i :: 0 <= i < |ch| - 1 ==> f[ch[i]] == ch[i + 1])
    && f[ch[|ch| - 1]] >= END_OF_CHAIN
  }

  ghost predicate Chained(f: fat, c: u16) {
    exists ch :: IsChain(f, c, ch)
  }

  ghost function Chain(f: fat, c: u16): (ch: seq<u16>)
    requires Chained(f, c)
    ensures IsChain(f, c, ch)
  {
    var ch :| IsChain(f, c, ch);
    ch
  }

  /** Two chains agree as far as both go, and the table says where they end. */
  lemma {:induction false} ChainsAgree(f: fat, c: u16, a: seq<u16>, b: seq<u16>, n: nat)
    requires IsChain(f, c, a) && IsChain(f, c, b) && n <= |a| && n <= |b|
    ensures a[..n] == b[..n]
  {
    if n > 1 {
      ChainsAgree(f, c, a, b, n - 1);
      assert a[..n - 1][n - 2] == b[..n - 1][n - 2];
      assert f[a[n - 2]] == a[n - 1] && f[b[n - 2]] == b[n - 1];
    }
  }

  /** Only the last cluster of a chain carries an end mark. */
  lemma ChainEnd(f: fat, c: u16, ch: seq<u16>)
    requires IsChain(f, c, ch)
    ensures forall i :: 0 <= i < |ch| ==> (f[ch[i]] >= END_OF_CHAIN <==> i == |ch| - 1)
  {
    forall i | 0 <= i < |ch| - 1
      ensures f[ch[i]] < END_OF_CHAIN
    {
      assert f[ch[i]] == ch[i + 1];
    }
  }

  /** One step along a chain. */
  lemma ChainStep(f: fat, c: u16, i: nat)
    requires Chained(f, c) && i < |Chain(f, c)|
    ensures InRange(Chain(f, c)[i])
    ensures if i + 1 < |Chain(f, c)| then f[Chain(f, c)[i]] == Chain(f, c)[i + 1] else f[Chain(f, c)[i]] >= END_OF_CHAIN
  {
  }

  lemma ChainUnique(f: fat, c: u16, a: seq<u16>)
    requires IsChain(f, c, a)
    ensures Chained(f, c) && Chain(f, c) == a
  {
    var b := Chain(f, c);
    var n := if |a| < |b| then |a| else |b|;
    ChainsAgree(f, c, a, b, n);
    assert a[n - 1] == a[..n][n - 1] == b[..n][n - 1] == b[n - 1];
    ChainEnd(f, c, a);
    ChainEnd(f, c, b);
    assert a == a[..n] && b == b[..n];
  }

  /** A chain is untouched by changes to table entries that are not on it. */
  lemma ChainFrame(f: fat, g: fat, c: u16)
    requires Chained(f, c)
    requires forall x :: x in Chain(f, c) ==> f[x] == g[x]
    ensures Chained(g, c) && Chain(g, c) == Chain(f, c)
  {
    ChainUnique(g, c, Chain(f, c));
  }

  /** Every cluster on a chain is allocated. */
  lemma OnChainAllocated(f: fat, c: u16, x: u16)
    requires Chained(f, c) && x in Chain(f, c)
    ensures InRange(x) && f[x] != FREE
  {
    var ch := Chain(f, c);
    var i :| 0 <= i < |ch| && ch[i] == x;
    if i < |ch| - 1 {
      assert f[ch[i]] == ch[i + 1];
    }
  }

  /** Allocating a free cluster leaves every chain as it was. */
  lemma ChainKept(f: fat, c: u16, x: u16, v: u16)
    requires Chained(f, c) && x < 256 && f[x] == FREE
    ensures x !in Chain(f, c)
    ensures Chained(f[x := v], c) && Chain(f[x := v], c) == Chain(f, c)
  {
    forall y | y in Chain(f, c)
      ensures y != x
    {
      OnChainAllocated(f, c, y);
    }
    ChainFrame(f, f[x := v], c);
  }

  ghost predicate Apart(a: seq<u16>, b: seq<u16>) {
    forall x :: x in a ==> x !in b
  }

  /** A directory, the root or the start of a chain, is on no chain apart from its own. */
  lemma DirectoryApart(f: fat, c: u16, start: u16, x: u16)
    requires Chained(f, start) && x in Chain(f, start)
    requires c == 0 || (Chained(f, c) && Apart(Chain(f, c), Chain(f, start)))
    ensures x != c
  {
    OnChainAllocated(f, start, x);
    if c != 0 {
      assert Chain(f, c)[0] == c;
    }
  }

  // ----- walking an arbitrary table, cyclic ones included

  /** Where n steps of the freeing loop lead in the original table: it stops moving
      once it is outside the table. */
  function Hop(f: fat, c: u16, n: nat): u16 {
    if n == 0 then c
    else
      var h := Hop(f, c, n - 1);
      if InRange(h) then f[h] else h
  }

  ghost predicate Reached(f: fat, c: u16, x: u16) {
    InRange(x) && exists n :: Hop(f, c, n) == x
  }

  /** The walk from c never meets an entry that is neither inside the table nor an end mark. */
  ghost predicate Confined(f: fat, c: u16) {
    forall n :: Hop(f, c, n) < 256 || Hop(f, c, n) >= END_OF_CHAIN
  }

  /** The table with every cluster reached from c freed. */
  ghost function Freed(f: fat, c: u16): fat {
    seq(256, x requires 0 <= x < 256 => if Reached(f, c, x) then FREE else f[x])
  }

  /** A table whose entries are all inside it or end marks confines every walk, cyclic or not. */
  lemma {:induction false} RangedConfines(f: fat, c: u16)
    requires c < 256 || c >= END_OF_CHAIN
    requires forall x: u16 :: InRange(x) ==> f[x] < 256 || f[x] >= END_OF_CHAIN
    ensures Confined(f, c)
  {
    forall n: nat
      ensures Hop(f, c, n) < 256 || Hop(f, c, n) >= END_OF_CHAIN
    {
      RangedHop(f, c, n);
    }
  }

  lemma {:induction false} RangedHop(f: fat, c: u16, n: nat)
    requires c < 256 || c >= END_OF_CHAIN
    requires forall x: u16 :: InRange(x) ==> f[x] < 256 || f[x] >= END_OF_CHAIN
    ensures Hop(f, c, n) < 256 || Hop(f, c, n) >= END_OF_CHAIN
  {
    if n > 0 {
      RangedHop(f, c, n - 1);
    }
  }

  lemma {:induction false} ChainHop(f: fat, c: u16, n: nat)
    requires Chained(f, c)
    ensures n < |Chain(f, c)| ==> Hop(f, c, n) == Chain(f, c)[n]
    ensures n >= |Chain(f, c)| ==> Hop(f, c, n) >= END_OF_CHAIN
  {
    if n > 0 {
      ChainHop(f, c, n - 1);
      if n < |Chain(f, c)| {
        assert f[Chain(f, c)[n - 1]] == Chain(f, c)[n - 1 + 1];
      }
    }
  }

  /** On a chain the walk meets exactly the clusters of the chain. */
  lemma ChainReached(f: fat, c: u16)
    requires Chained(f, c)
    ensures Confined(f, c)
    ensures forall x :: Reached(f, c, x) <==> x in Chain(f, c)
  {
    forall n: nat
      ensures Hop(f, c, n) < 256 || Hop(f, c, n) >= END_OF_CHAIN
      ensures InRange(Hop(f, c, n)) ==> Hop(f, c, n) in Chain(f, c)
    {
      ChainHop(f, c, n);
    }
    forall x | x in Chain(f, c)
      ensures Reached(f, c, x)
    {
      var i :| 0 <= i < |Chain(f, c)| && Chain(f, c)[i] == x;
      ChainHop(f, c, i);
    }
  }

  /** Once a walk revisits a cluster it goes round: step n + k repeats step m + k. */
  lemma {:induction false} HopPeriodic(f: fat, c: u16, m: nat, n: nat, k: nat)
    requires Hop(f, c, m) == Hop(f, c, n)
    ensures Hop(f, c, m + k) == Hop(f, c, n + k)
  {
    if k > 0 {
      HopPeriodic(f, c, m, n, k - 1);
    }
  }

  lemma {:induction false} HopStuck(f: fat, c: u16, n: nat, k: nat)
    requires !InRange(Hop(f, c, n))
    ensures Hop(f, c, n + k) == Hop(f, c, n)
  {
    if k > 0 {
      HopStuck(f, c, n, k - 1);
    }
  }

  /** If step n repeats an earlier step, everything reached was reached before step n. */
  lemma {:induction false} ReachedEarly(f: fat, c: u16, m: nat, n: nat, k: nat) returns (r: nat)
    requires m < n && Hop(f, c, m) == Hop(f, c, n)
    ensures r < n && Hop(f, c, r) == Hop(f, c, k)
  {
    r := k;
    while r >= n
      invariant Hop(f, c, r) == Hop(f, c, k)
    {
      HopPeriodic(f, c, m, n, r - n);
      r := r - (n - m);
    }
  }

  // ----- the freeing loop

  /** After n steps of the loop on the table f: `done` were freed, g is the table now, and `current` is where the
      walk stands, unless it came back to a freed cluster and so read 0 (`closed`). */
  ghost predicate Freeing(f: fat, start: u16, g: fat, done: set<u16>, n: nat, current: u16, closed: bool) {
    && (forall x: u16 :: x < 256 ==> g[x] == if x in done then FREE else f[x])
    && (forall x :: x in done ==> exists m: nat :: m < n && Hop(f, start, m) == x && InRange(x))
    && (forall m: nat :: m < n ==> Hop(f, start, m) in done)
    && (if closed then current == 0 && n > 0 && Hop(f, start, n) in done else current == Hop(f, start, n))
  }

  /** The clusters not yet freed: the measure of the loop. */
  ghost function Rest(done: set<u16>): set<u16> {
    (set c: u16 | 0 <= c < 256 && InRange(c)) - done
  }

  lemma FreeingStep(f: fat, start: u16, g: fat, done: set<u16>, n: nat, current: u16)
    returns (done': set<u16>, n': nat, closed: bool)
    requires Freeing(f, start, g, done, n, current, false) && InRange(current)
    ensures if closed then done' == done else Rest(done') < Rest(done)
    ensures Freeing(f, start, g[current := FREE], done', n', g[current], closed)
  {
    closed := current in done;
    done' := done + {current};
    assert closed ==> done' == done;
    assert !closed ==> current in Rest(done) && current !in Rest(done');
    n' := if closed then n else n + 1;
    if closed {
      assert Hop(f, start, n) in done;
    } else {
      assert g[current] == f[current];
      assert Hop(f, start, n + 1) == f[current];
      assert Hop(f, start, n) == current;
    }
  }

  /** When the loop stops, exactly the reached clusters were freed. */
  lemma FreeingDone(f: fat, start: u16, g: fat, done: set<u16>, n: nat, current: u16, closed: bool)
    requires Freeing(f, start, g, done, n, current, closed) && Confined(f, start)
    requires !(2 <= current < END_OF_CHAIN)
    ensures g == Freed(f, start)
  {
    forall x: u16 | Reached(f, start, x)
      ensures x in done
    {
      var k: nat :| Hop(f, start, k) == x;
      if k >= n {
        if closed {
          var m: nat :| m < n && Hop(f, start, m) == Hop(f, start, n);
          var r := ReachedEarly(f, start, m, n, k);
        } else {
          HopStuck(f, start, n, k - n);
        }
      } else {
        assert Hop(f, start, k) in done;
      }
    }
  }

  // ----- free space

  ghost function FreeClusters(f: fat): set<u16> {
    set c: u16 | 2 <= c < 256 && f[c] == FREE
  }

  lemma AllocateOne(f: fat, c: u16, v: u16)
    requires InRange(c) && f[c] == FREE && v != FREE
    ensures FreeClusters(f[c := v]) == FreeClusters(f) - {c}
    ensures |FreeClusters(f[c := v])| == |FreeClusters(f)| - 1
  {
  }

  ghost function Clusters(ch: seq<u16>): set<u16> {
    set x: u16 | x in ch
  }

  lemma {:induction false} DistinctCount(ch: seq<u16>)
    requires forall i, j :: 0 <= i < j < |ch| ==> ch[i] != ch[j]
    ensures |Clusters(ch)| == |ch|
  {
    if ch == [] {
      assert Clusters(ch) == {};
    } else {
      var rest := ch[1..];
      DistinctCount(rest);
      assert Clusters(ch) == {ch[0]} + Clusters(rest);
      assert ch[0] !in Clusters(rest);
    }
  }

  /** Freeing a chain frees exactly its clusters, so it raises the free count by its length. */
  lemma FreeChain(f: fat, c: u16)
    requires Chained(f, c)
    ensures FreeClusters(Freed(f, c)) == FreeClusters(f) + Clusters(Chain(f, c))
    ensures |FreeClusters(Freed(f, c))| == |FreeClusters(f)| + |Chain(f, c)|
  {
    var ch := Chain(f, c);
    ChainReached(f, c);
    forall x | x in ch
      ensures x !in FreeClusters(f)
    {
      OnChainAllocated(f, c, x);
    }
    assert FreeClusters(Freed(f, c)) == FreeClusters(f) + Clusters(ch);
    assert FreeClusters(f) !! Clusters(ch);
    DistinctCount(ch);
  }
}
