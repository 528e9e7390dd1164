/** The calls on the bytes of the disk: which bytes they read and which they leave, in numbers. */
module DiskBytes {
  import opened Bytes
  import opened Layout
  import opened Chains
  import opened Tree
  import opened Volume

  // ----- where things are

  /** The sector of the current directory: 68 for the root, 98 + c for the one at cluster c. */
  function DirectoryPlace(v: Volume): nat {
    if v.cwd == 0 then 68 else 98 + v.cwd
  }

  lemma DirectoryBytes(v: Volume)
    requires v.Valid()
    ensures DirectoryPlace(v) < |v.disk| && v.Directory() == v.disk[DirectoryPlace(v)]
  {
  }

  /** Entry c of the table. */
  function WordAt(d: disk, c: nat): int
    requires c < 256
  {
    d[50][2 * c] as int + 0x100 * d[50][2 * c + 1] as int
  }

  lemma TableBytes(d: disk, c: nat)
    requires c < 256
    ensures Table(d)[c] == WordAt(d, c)
  {
  }

  /** The cluster of slot k. */
  function ClusterOf(s: sector, k: nat): int
    requires k < 16
  {
    s[32 * k + 26] as int + 0x100 * s[32 * k + 27] as int
  }

  lemma EntryBytes(s: sector, k: slot)
    ensures var e := EntryAt(s, k);
      && (forall i :: 0 <= i < 8 ==> e.name[i] == s[32 * k + i])
      && (forall i :: 0 <= i < 3 ==> e.ext[i] == s[32 * k + 8 + i])
      && (e.Live() <==> s[32 * k] != 0 && s[32 * k] != 0xE5)
      && (e.IsDirectory() <==> s[32 * k + 11] == 0x10)
      && e.cluster == s[32 * k + 26] as int + 0x100 * s[32 * k + 27] as int
      && e.size == s[32 * k + 28] as int
                   + 0x100 * (s[32 * k + 29] as int + 0x100 * (s[32 * k + 30] as int + 0x100 * s[32 * k + 31] as int))
  {
    var b := SlotBytes(s, k);
    assert forall i :: 0 <= i < 32 ==> b[i] == s[32 * k + i];
  }

  // ----- the searches

  predicate IsFree(d: disk, c: nat)
    requires c < 256
  {
    d[50][2 * c] == 0 && d[50][2 * c + 1] == 0
  }

  predicate FirstFree(d: disk, c: nat) {
    2 <= c < 256 && IsFree(d, c) && forall x: nat :: 2 <= x < c ==> !IsFree(d, x)
  }

  predicate IsFull(d: disk) {
    forall x: nat :: 2 <= x < 256 ==> !IsFree(d, x)
  }

  predicate IsOpen(s: sector, k: nat)
    requires k < 16
  {
    s[32 * k] == 0 || s[32 * k] == 0xE5
  }

  predicate FirstOpen(s: sector, k: nat) {
    k < 16 && IsOpen(s, k) && forall j: nat :: j < k ==> !IsOpen(s, j)
  }

  predicate NoneOpen(s: sector) {
    forall j: nat :: j < 16 ==> !IsOpen(s, j)
  }

  lemma FreeBytes(d: disk, x: nat)
    requires x < 256
    ensures Table(d)[x] == 0 <==> IsFree(d, x)
  {
    TableBytes(d, x);
  }

  lemma FoundCluster(d: disk, f: fat, c: u16)
    requires forall x: nat :: x < 256 ==> (f[x] == 0 <==> IsFree(d, x))
    requires c == FreeClusterFrom(f, 2)
    ensures if c == 0 then IsFull(d) else FirstFree(d, c)
  {
  }

  lemma ClusterSearch(d: disk)
    ensures var c := FreeClusterFrom(Table(d), 2); if c == 0 then IsFull(d) else FirstFree(d, c)
  {
    forall x: nat | x < 256
      ensures Table(d)[x] == 0 <==> IsFree(d, x)
    {
      FreeBytes(d, x);
    }
    FoundCluster(d, Table(d), FreeClusterFrom(Table(d), 2));
  }

  lemma SlotSearch(s: sector)
    ensures var k := FreeSlotFrom(s, 0); if k == None then NoneOpen(s) else FirstOpen(s, k.value)
  {
    forall j: nat | j < 16
      ensures EntryAt(s, j).Live() <==> !IsOpen(s, j)
    {
      EntryBytes(s, j);
    }
  }

  /** The slot has the name: eight ASCII characters, padded with blanks. */
  predicate HasName(s: sector, name: seq<byte>, k: nat)
    requires k < 16
  {
    forall i: nat :: i < 8 ==> HasLetter(s, name, k, i)
  }

  predicate HasLetter(s: sector, name: seq<byte>, k: nat, i: nat)
    requires k < 16 && i < 8
  {
    s[32 * k + i] < 0x80 && s[32 * k + i] == if i < |name| then name[i] else 32
  }

  /** Before slot k every slot is used, by another name or a deleted one. */
  predicate NotBefore(s: sector, name: seq<byte>, k: nat)
    requires k <= 16
  {
    forall j: nat :: j < k ==> s[32 * j] != 0 && (s[32 * j] == 0xE5 || !HasName(s, name, j))
  }

  /** The slot that answers to the name. */
  predicate Answers(s: sector, name: seq<byte>, k: nat) {
    k < 16 && s[32 * k] != 0 && s[32 * k] != 0xE5 && HasName(s, name, k) && NotBefore(s, name, k)
  }

  lemma MatchByte(s: sector, name: seq<byte>, k: slot, i: nat)
    requires i < 8
    ensures SignedChar(Pad(name, 8)[i]) == EntryAt(s, k).name[i] <==> HasLetter(s, name, k, i)
  {
    EntryBytes(s, k);
  }

  lemma MatchBytes(s: sector, name: seq<byte>, k: slot)
    ensures Matches(Pad(name, 8), EntryAt(s, k).name) <==> HasName(s, name, k)
  {
    var padded, n := Pad(name, 8), EntryAt(s, k).name;
    if Matches(padded, n) {
      forall i: nat | i < 8
        ensures HasLetter(s, name, k, i)
      {
        MatchByte(s, name, k, i);
        assert SignedChar(padded[i]) == n[i];
      }
    } else if HasName(s, name, k) {
      forall i | 0 <= i < 8
        ensures SignedChar(padded[i]) == n[i]
      {
        MatchByte(s, name, k, i);
        assert HasLetter(s, name, k, i);
      }
      assert false;
    }
  }

  lemma {:induction false} SearchBytes(s: sector, name: seq<byte>, i: nat)
    requires i <= 16 && NotBefore(s, name, i)
    ensures var r := FindFrom(s, Pad(name, 8), i);
      if r.Some? then Answers(s, name, r.value) else forall k :: !Answers(s, name, k)
    decreases 16 - i
  {
    if i < 16 {
      EntryBytes(s, i);
      MatchBytes(s, name, i);
      if s[32 * i] != 0 && (s[32 * i] == 0xE5 || !HasName(s, name, i)) {
        SearchBytes(s, name, i + 1);
      }
    }
  }

  lemma AnswersOnce(s: sector, name: seq<byte>, j: nat, k: nat)
    requires Answers(s, name, j) && Answers(s, name, k)
    ensures j == k
  {
  }

  lemma FindIs(v: Volume, name: seq<byte>)
    requires v.Valid()
    ensures Find(v, name) == FindFrom(v.disk[DirectoryPlace(v)], Pad(name, 8), 0)
  {
    DirectoryBytes(v);
  }

  lemma FindAnswers(v: Volume, name: seq<byte>)
    requires v.Valid()
    ensures var r := Find(v, name);
      if r.Some? then Answers(v.disk[DirectoryPlace(v)], name, r.value)
      else forall k :: !Answers(v.disk[DirectoryPlace(v)], name, k)
  {
    FindIs(v, name);
    SearchBytes(v.disk[DirectoryPlace(v)], name, 0);
  }

  /** The search finds the slot whose bytes answer to the name, and there is at most one. */
  lemma FindBytes(v: Volume, name: seq<byte>, k: nat)
    requires v.Valid()
    ensures k < 16 && Find(v, name) == Some(k) <==> Answers(v.disk[DirectoryPlace(v)], name, k)
  {
    var r, s := Find(v, name), v.disk[DirectoryPlace(v)];
    FindAnswers(v, name);
    if r.Some? && Answers(s, name, k) {
      AnswersOnce(s, name, r.value, k);
    }
  }

  lemma FindNothing(v: Volume, name: seq<byte>)
    requires v.Valid() && forall j :: !Answers(v.disk[DirectoryPlace(v)], name, j)
    ensures Find(v, name) == None
  {
    FindAnswers(v, name);
  }

  /** The slot that answers, as an entry. */
  lemma AnswersAs(v: Volume, name: seq<byte>, k: nat) returns (e: Entry)
    requires v.Valid() && Answers(v.disk[DirectoryPlace(v)], name, k)
    ensures Find(v, name) == Some(k) && e == EntryAt(v.Directory(), k)
    ensures e.cluster == ClusterOf(v.disk[DirectoryPlace(v)], k)
    ensures e.IsDirectory() <==> v.disk[DirectoryPlace(v)][32 * k + 11] == 0x10
  {
    FindBytes(v, name, k);
    DirectoryBytes(v);
    e := EntryAt(v.Directory(), k);
    EntryBytes(v.disk[DirectoryPlace(v)], k);
  }

  /** What the calls do with the result of the search. */
  lemma Found(v: Volume, name: seq<byte>, k: slot, e: Entry)
    requires v.Valid() && Find(v, name) == Some(k) && e == EntryAt(v.Directory(), k)
    ensures RemoveFile(v, name) == (RemoveEntry(v, k), Deleted)
    ensures Ends(v.disk, e.cluster) ==> CatEnds(v, name) && CatFile(v, name) == Shown(TextsFrom(v.disk, e.cluster))
    ensures name != SLASH && name != DOTS ==>
      ChangeDirectory(v, name) == if e.IsDirectory() then (v.(cwd := e.cluster), Entered) else (v, NotADirectory)
  {
  }

  lemma NotThere(v: Volume, name: seq<byte>)
    requires v.Valid() && Find(v, name) == None
    ensures RemoveFile(v, name) == (v, NotFound) && CatEnds(v, name) && CatFile(v, name) == NotFound
    ensures name != SLASH && name != DOTS ==> ChangeDirectory(v, name) == (v, NotFound)
  {
  }

  // ----- write and mkdir

  /** 18 of the 32 bytes are rewritten: name and extension, attributes, a cluster below 256, and the size. */
  predicate Rewritten(was: seq<byte>, b: seq<byte>, name: seq<byte>, attributes: byte, c: byte, size: u32)
    requires |was| == 32
  {
    && |b| == 32 && b[..11] == name && b[11] == attributes && b[12..26] == was[12..26] && b[26] == c && b[27] == 0
    && b[28] as int + 0x100 * (b[29] as int + 0x100 * (b[30] as int + 0x100 * b[31] as int)) == size
  }

  /** Only the 32 bytes of slot k differ, and those are rewritten. */
  predicate EntryWritten(s: sector, t: sector, k: nat, name: seq<byte>, attributes: byte, c: byte, size: u32)
    requires k < 16
  {
    && t[..32 * k] == s[..32 * k] && t[32 * k + 32..] == s[32 * k + 32..]
    && Rewritten(s[32 * k..32 * k + 32], t[32 * k..32 * k + 32], name, attributes, c, size)
  }

  /** t is s with the entry of cluster c set to 0xFFFF. */
  predicate Allocated(s: sector, t: sector, c: nat)
    requires c < 256
  {
    t[2 * c] == 0xFF && t[2 * c + 1] == 0xFF
    && forall i :: 0 <= i < 512 && i != 2 * c && i != 2 * c + 1 ==> t[i] == s[i]
  }

  /** On the first free cluster and the first open slot an entry and its contents were stored; all other sectors
      stayed, and so did the current directory. */
  predicate Added(v: Volume, w: Volume, c: nat, k: nat, name: seq<byte>, attributes: byte, size: u32)
    requires v.Valid() && |name| == 11
  {
    && FirstFree(v.disk, c) && FirstOpen(v.disk[DirectoryPlace(v)], k)
    && w.cwd == v.cwd && |w.disk| == |v.disk|
    && EntryWritten(v.disk[DirectoryPlace(v)], w.disk[DirectoryPlace(v)], k, name, attributes, c, size)
    && Allocated(v.disk[50], w.disk[50], c)
    && forall i :: 0 <= i < |v.disk| && i != DirectoryPlace(v) && i != 98 + c && i != 50 ==> w.disk[i] == v.disk[i]
  }

  /** The current directory is the root, or its table entry is not zero. */
  predicate InAllocated(v: Volume)
    requires v.Valid()
  {
    v.cwd == 0 || !IsFree(v.disk, v.cwd)
  }

  lemma FilledInBytes(was: slotBytes, name: seq<byte>, attributes: byte, c: byte, size: u32)
    requires |name| == 11
    ensures Rewritten(was, FilledIn(was, name, attributes, c, size), name, attributes, c, size)
  {
    var b, r := FilledIn(was, name, attributes, c, size), TailBytes(c, size);
    assert b[26..] == r;
    assert forall i :: 0 <= i < 6 ==> b[26 + i] == b[26..][i] == r[i];
    TailStands(c, size);
  }

  lemma PutEntryBytes(s: sector, k: slot, name: seq<byte>, attributes: byte, c: byte, size: u32)
    requires |name| == 11
    ensures EntryWritten(s, PutEntry(s, k, name, attributes, c, size), k, name, attributes, c, size)
  {
    FilledInBytes(SlotBytes(s, k), name, attributes, c, size);
    ReplacedBytes(s, k, FilledIn(SlotBytes(s, k), name, attributes, c, size), k);
  }

  lemma PutFatBytes(s: sector, c: nat)
    requires c < 256
    ensures Allocated(s, PutFat(s, c, LAST_CLUSTER), c)
  {
  }

  lemma InstallBytes(v: Volume, k: slot, name: seq<byte>, attributes: byte, c: byte, size: u32, body: sector)
    requires v.Valid() && InRange(c) && c != v.cwd && |name| == 11
    ensures var w := Install(v.disk, v.cwd, k, name, attributes, c, size, body); var p := DirectoryPlace(v);
      && |w| == |v.disk| && w[98 + c as int] == body
      && w[p] == PutEntry(v.disk[p], k, name, attributes, c, size) && w[50] == PutFat(v.disk[50], c, LAST_CLUSTER)
      && forall i :: 0 <= i < |w| && i != p && i != 98 + c as int && i != 50 ==> w[i] == v.disk[i]
  {
  }

  lemma InstallAdds(v: Volume, k: slot, name: seq<byte>, attributes: byte, c: byte, size: u32, body: sector)
    requires v.Valid() && InAllocated(v) && |name| == 11
    requires FirstFree(v.disk, c) && FirstOpen(v.disk[DirectoryPlace(v)], k)
    ensures var w := v.(disk := Install(v.disk, v.cwd, k, name, attributes, c, size, body));
      Added(v, w, c, k, name, attributes, size) && w.disk[98 + c as int] == body
  {
    var p := DirectoryPlace(v);
    InstallBytes(v, k, name, attributes, c, size, body);
    PutEntryBytes(v.disk[p], k, name, attributes, c, size);
    PutFatBytes(v.disk[50], c);
  }

  lemma CreateBytes(v: Volume, name: seq<byte>, attributes: byte, size: u32, body: sector) returns (c: byte, k: slot)
    requires v.Valid() && InAllocated(v) && |name| == 11
    ensures var r := Create(v, name, attributes, size, body);
      if IsFull(v.disk) then r == (v, DiskFull)
      else if NoneOpen(v.disk[DirectoryPlace(v)]) then r == (v, DirectoryFull)
      else r.1 == Stored && Added(v, r.0, c, k, name, attributes, size) && r.0.disk[98 + c as int] == body
  {
    ClusterSearch(v.disk);
    SlotSearch(v.Directory());
    CreateCases(v, name, attributes, size, body);
    var found, place := FreeClusterFrom(Table(v.disk), 2), FreeSlotFrom(v.Directory(), 0);
    c, k := CreateWith(v, name, attributes, size, body, found, place);
  }

  lemma CreateWith(v: Volume, name: seq<byte>, attributes: byte, size: u32, body: sector, found: u16,
                   place: Option<slot>) returns (c: byte, k: slot)
    requires v.Valid() && InAllocated(v) && |name| == 11
    requires if found == 0 then IsFull(v.disk) else FirstFree(v.disk, found)
    requires if place == None then NoneOpen(v.Directory()) else FirstOpen(v.Directory(), place.value)
    ensures var r := if found == 0 then (v, DiskFull) else if place == None then (v, DirectoryFull)
        else (v.(disk := Install(v.disk, v.cwd, place.value, name, attributes, found, size, body)), Stored);
      if IsFull(v.disk) then r == (v, DiskFull)
      else if NoneOpen(v.disk[DirectoryPlace(v)]) then r == (v, DirectoryFull)
      else r.1 == Stored && Added(v, r.0, c, k, name, attributes, size) && r.0.disk[98 + c as int] == body
  {
    c, k := 0, 0;
    if found != 0 && place.Some? {
      c, k := found, place.value;
      InstallAdds(v, k, name, attributes, c, size, body);
    }
  }

  /** Only this sector differs. */
  predicate SameBut(d: disk, w: disk, p: nat) {
    |w| == |d| && forall i :: 0 <= i < |d| && i != p ==> w[i] == d[i]
  }

  lemma InstallOrder(v: Volume, k: slot, name: seq<byte>, attributes: byte, c: u16, size: u32, body: sector)
    requires v.Valid() && InRange(c) && |name| == 11
    ensures var ws := InstallWrites(v.disk, v.cwd, k, name, attributes, c, size, body);
      && |ws| == 3 && SameBut(v.disk, ws[0], DirectoryPlace(v))
      && SameBut(ws[0], ws[1], 98 + c) && SameBut(ws[1], ws[2], 50)
  {
  }

  /** A creation rewrites the directory first, the contents second and the table last. */
  lemma CreateOrder(v: Volume, name: seq<byte>, attributes: byte, size: u32, body: sector)
    requires v.Valid() && |name| == 11
    ensures var r, ws := Create(v, name, attributes, size, body), CreateWrites(v, name, attributes, size, body);
      if r.1 != Stored then ws == []
      else
        && |ws| == 3 && ws[2] == r.0.disk && SameBut(v.disk, ws[0], DirectoryPlace(v)) && SameBut(ws[1], ws[2], 50)
        && exists c: nat :: FirstFree(v.disk, c) && SameBut(ws[0], ws[1], 98 + c)
  {
    var c, k := FreeClusterFrom(Table(v.disk), 2), FreeSlotFrom(v.Directory(), 0);
    ClusterSearch(v.disk);
    CreateCases(v, name, attributes, size, body);
    if c != 0 && k.Some? {
      InstallOrder(v, k.value, name, attributes, c, size, body);
    }
  }

  /** The sector of a new file: the content, cut after 511 bytes, before zeros. */
  predicate Holds(s: sector, content: seq<byte>) {
    forall i :: 0 <= i < 512 ==> s[i] == if i < |content| && i < 511 then content[i] else 0
  }

  /** write: attributes 0x20, the length as size, and the content in the sector. */
  lemma WriteBytes(v: Volume, name: seq<byte>, content: seq<byte>) returns (c: byte, k: slot)
    requires v.Valid() && InAllocated(v) && |name| == 11
    ensures var r := WriteFile(v, name, content);
      if IsFull(v.disk) then r == (v, DiskFull)
      else if NoneOpen(v.disk[DirectoryPlace(v)]) then r == (v, DirectoryFull)
      else
        && r.1 == Stored && Added(v, r.0, c, k, name, 0x20, |content| % 0x1_0000_0000)
        && Holds(r.0.disk[98 + c as int], content)
  {
    c, k := CreateBytes(v, name, 0x20, |content| % 0x1_0000_0000, FileSector(content));
  }

  /** mkdir: the name padded to 11 characters, attributes 0x10, size 0, and a sector of zeros. */
  lemma MakeBytes(v: Volume, name: seq<byte>, padded: seq<byte>) returns (c: byte, k: slot)
    requires v.Valid() && InAllocated(v)
    requires |padded| == 11 && forall i :: 0 <= i < 11 ==> padded[i] == if i < 8 && i < |name| then name[i] else 32
    ensures var r := MakeDirectory(v, name);
      if IsFull(v.disk) then r == (v, DiskFull)
      else if NoneOpen(v.disk[DirectoryPlace(v)]) then r == (v, DirectoryFull)
      else
        && r.1 == Stored && Added(v, r.0, c, k, padded, 0x10, 0)
        && r.0.disk[98 + c as int] == seq(512, _ => 0)
  {
    assert padded == Pad(name, 8) + BLANK_EXT;
    c, k := CreateBytes(v, padded, 0x10, 0, ZeroSector());
  }

  // ----- rm and cat

  /** The clusters of an entry: linked by the table, and ended by a word from 0xFFF8 on. */
  predicate Linked(d: disk, c: int, ch: seq<byte>) {
    && ch != [] && ch[0] as int == c && (forall i :: 0 <= i < |ch| ==> 2 <= ch[i])
    && (forall i, j :: 0 <= i < j < |ch| ==> ch[i] != ch[j])
    && (forall i :: 0 <= i < |ch| - 1 ==> WordAt(d, ch[i]) == ch[i + 1] as int)
    && WordAt(d, ch[|ch| - 1]) >= 0xFFF8
  }

  lemma LinkedIsChain(d: disk, c: u16, ch: seq<byte>)
    requires Linked(d, c, ch)
    ensures IsChain(Table(d), c, ch) && Chained(Table(d), c) && Chain(Table(d), c) == ch
  {
    forall i | 0 <= i < |ch|
      ensures InRange(ch[i])
      ensures Table(d)[ch[i]] == WordAt(d, ch[i])
    {
      TableBytes(d, ch[i]);
    }
    ChainUnique(Table(d), c, ch);
  }

  /** rm of a slot whose clusters are linked: one byte of the directory becomes 0xE5, the table entries of these
      clusters become 0, and nothing else changes. */
  predicate Removed(v: Volume, w: Volume, k: nat, ch: seq<byte>)
    requires v.Valid()
  {
    && k < 16 && w.cwd == v.cwd && |w.disk| == |v.disk|
    && w.disk[DirectoryPlace(v)] == v.disk[DirectoryPlace(v)][32 * k := 0xE5]
    && (forall i :: 0 <= i < 512 ==> w.disk[50][i] == if i / 2 in ch then 0 else v.disk[50][i])
    && forall i :: 0 <= i < |v.disk| && i != DirectoryPlace(v) && i != 50 ==> w.disk[i] == v.disk[i]
  }

  lemma FreedBytes(d: disk, c: u16, ch: seq<byte>)
    requires Linked(d, c, ch)
    ensures forall i :: 0 <= i < 512 ==> FatSector(Freed(Table(d), c))[i] == if i / 2 in ch then 0 else d[50][i]
  {
    var f := Freed(Table(d), c);
    LinkedIsChain(d, c, ch);
    ChainReached(Table(d), c);
    forall i | 0 <= i < 512
      ensures FatSector(f)[i] == if i / 2 in ch then 0 else d[50][i]
    {
      TableBytes(d, i / 2);
      assert f[i / 2] == if i / 2 in ch then 0 else Table(d)[i / 2];
    }
  }

  lemma RemoveEntryBytes(v: Volume, k: slot, c: u16)
    requires v.Valid() && EntryAt(v.Directory(), k).cluster == c
    ensures var w, p := RemoveEntry(v, k), DirectoryPlace(v);
      && w.cwd == v.cwd && |w.disk| == |v.disk| && w.disk[p] == v.disk[p][32 * k := 0xE5]
      && w.disk[50] == FatSector(Freed(Table(v.disk), c))
      && forall i :: 0 <= i < |v.disk| && i != p && i != 50 ==> w.disk[i] == v.disk[i]
  {
  }

  lemma RemoveBytes(v: Volume, name: seq<byte>, k: nat, ch: seq<byte>) returns (w: Volume)
    requires v.Valid() && Answers(v.disk[DirectoryPlace(v)], name, k)
    requires Linked(v.disk, ClusterOf(v.disk[DirectoryPlace(v)], k), ch)
    ensures RemoveFile(v, name) == (w, Deleted) && Removed(v, w, k, ch)
  {
    var e := AnswersAs(v, name, k);
    var c := e.cluster;
    w := RemoveEntry(v, k);
    Found(v, name, k, e);
    RemoveEntryBytes(v, k, c);
    FreedBytes(v.disk, c, ch);
  }

  /** A removal rewrites the directory first and the table second. */
  lemma RemoveOrder(v: Volume, name: seq<byte>, k: nat, ch: seq<byte>)
    requires v.Valid() && Answers(v.disk[DirectoryPlace(v)], name, k)
    requires Linked(v.disk, ClusterOf(v.disk[DirectoryPlace(v)], k), ch)
    ensures var ws := RemoveWrites(v, name);
      |ws| == 2 && SameBut(v.disk, ws[0], DirectoryPlace(v)) && SameBut(ws[0], ws[1], 50)
  {
    var e := AnswersAs(v, name, k);
  }

  /** rm of a name that no slot answers to changes nothing. */
  lemma RemoveNothing(v: Volume, name: seq<byte>)
    requires v.Valid() && forall k :: !Answers(v.disk[DirectoryPlace(v)], name, k)
    ensures RemoveFile(v, name) == (v, NotFound)
  {
    FindNothing(v, name);
    NotThere(v, name);
  }

  /** The text of a sector: its bytes before the first NUL, at most 511. */
  predicate IsText(s: sector, text: seq<byte>) {
    |text| <= 511 && text == s[..|text|] && 0 !in text && (|text| < 511 ==> s[|text|] == 0)
  }

  /** These are the texts of the sectors of the clusters. */
  predicate AreTexts(d: disk, ch: seq<byte>, pieces: seq<seq<byte>>) {
    |pieces| == |ch| && forall i :: 0 <= i < |ch| ==> IsText(d[98 + ch[i] as int], pieces[i])
  }

  /** cat shows the texts of the sectors of the clusters, in order. */
  lemma CatBytes(v: Volume, name: seq<byte>, k: nat, ch: seq<byte>) returns (pieces: seq<seq<byte>>)
    requires v.Valid() && Answers(v.disk[DirectoryPlace(v)], name, k)
    requires Linked(v.disk, ClusterOf(v.disk[DirectoryPlace(v)], k), ch)
    ensures CatEnds(v, name) && CatFile(v, name) == Shown(pieces) && AreTexts(v.disk, ch, pieces)
  {
    var e := AnswersAs(v, name, k);
    LinkedIsChain(v.disk, e.cluster, ch);
    ChainIsWalk(v.disk, e.cluster);
    Found(v, name, k, e);
    TextsBytes(v.disk, e.cluster, ch);
    pieces := TextsFrom(v.disk, e.cluster);
  }

  lemma TextsBytes(d: disk, c: u16, ch: seq<byte>)
    requires Linked(d, c, ch) && Ends(d, c) && Walk(d, c) == ch
    ensures AreTexts(d, ch, TextsFrom(d, c))
  {
    WalkPlaces(d, c, Walk(d, c));
    forall i | 0 <= i < |ch|
      ensures IsText(d[98 + ch[i] as int], TextsFrom(d, c)[i])
    {
      TextBytes(d[98 + ch[i] as int]);
    }
  }

  lemma TextBytes(s: sector)
    ensures IsText(s, Text(s))
  {
    var t := s[..511];
    assert Text(s) == t[..|Text(s)|] == s[..|Text(s)|];
  }

  /** An entry without a cluster shows nothing. */
  lemma CatNothing(v: Volume, name: seq<byte>, k: nat)
    requires v.Valid() && Answers(v.disk[DirectoryPlace(v)], name, k)
    requires var c := ClusterOf(v.disk[DirectoryPlace(v)], k); c < 2 || c >= 0xFFF8
    ensures CatEnds(v, name) && CatFile(v, name) == Shown([])
  {
    var e := AnswersAs(v, name, k);
    assert IsWalk(v.disk, e.cluster, []);
    Found(v, name, k, e);
    WalkUnique(v.disk, e.cluster, [], Walk(v.disk, e.cluster));
  }

  lemma CatNotFound(v: Volume, name: seq<byte>)
    requires v.Valid() && forall k :: !Answers(v.disk[DirectoryPlace(v)], name, k)
    ensures CatEnds(v, name) && CatFile(v, name) == NotFound
  {
    FindNothing(v, name);
    NotThere(v, name);
  }

  /** Where the walk of cat goes on: from cluster c to the word at byte 2c behind the start of sector 50. */
  lemma NextBytes(d: disk, c: u16)
    requires 50 + 2 * c / 512 < |d|
    ensures NextCluster(d, c)
         == d[50 + 2 * c / 512][2 * c % 512] as int + 0x100 * d[50 + 2 * c / 512][2 * c % 512 + 1] as int
  {
    assert 2 * c / 512 == c / 256 && 2 * c % 512 == 2 * (c % 256);
  }

  // ----- cd

  /** "/" and ".." lead to the root, whatever the directory holds; another name to the cluster of the slot that
      answers to it, if its attributes are 0x10. */
  lemma ChangeBytes(v: Volume, name: seq<byte>, k: nat)
    requires v.Valid() && name != [47] && name != [46, 46] && Answers(v.disk[DirectoryPlace(v)], name, k)
    ensures ChangeDirectory(v, name) == if v.disk[DirectoryPlace(v)][32 * k + 11] == 0x10
      then (v.(cwd := ClusterOf(v.disk[DirectoryPlace(v)], k)), Entered) else (v, NotADirectory)
  {
    var e := AnswersAs(v, name, k);
    Found(v, name, k, e);
  }

  lemma ChangeToRoot(v: Volume, name: seq<byte>)
    requires v.Valid() && (name == [47] || name == [46, 46])
    ensures ChangeDirectory(v, name) == (v.(cwd := 0), AtRoot)
  {
  }

  lemma ChangeNothing(v: Volume, name: seq<byte>)
    requires v.Valid() && name != [47] && name != [46, 46] && forall k :: !Answers(v.disk[DirectoryPlace(v)], name, k)
    ensures ChangeDirectory(v, name) == (v, NotFound)
  {
    FindNothing(v, name);
    NotThere(v, name);
  }
}
