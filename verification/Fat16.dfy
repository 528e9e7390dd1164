/** The file system code over the disk and the console. */
module Fat16 {
  import opened Bytes
  import opened Layout
  import opened Chains
  import opened Tree
  import opened Devices
  import V = Volume

  class FileSystem {
    const disk: Disk
    const console: Console
    var currentDirCluster: u16

    constructor (disk: Disk, console: Console)
      ensures Valid() && this.disk == disk && this.console == console && currentDirCluster == 0
    {
      this.disk := disk;
      this.console := console;
      currentDirCluster := 0;
    }

    predicate Valid()
      reads this
    {
      IsDir(currentDirCluster)
    }

    /** The disk and the current directory. */
    function State(): V.Volume
      reads this, disk
    {
      V.Volume(disk.sectors, currentDirCluster)
    }

    // ----- sectors and entries

    method ReadCurrentDirectory(buffer: array<byte>)
      requires Valid() && buffer.Length == 512
      modifies buffer
      ensures buffer[..] == State().Directory()
    {
      if currentDirCluster == 0 {
        disk.ReadSector(68, buffer);
      } else {
        disk.ReadSector(DataSector(currentDirCluster), buffer);
      }
    }

    method WriteCurrentDirectory(buffer: array<byte>)
      requires Valid() && buffer.Length == 512
      modifies disk
      ensures disk.sectors == old(disk.sectors)[DirSector(currentDirCluster) := buffer[..]]
      ensures disk.history == old(disk.history) + [disk.sectors]
    {
      if currentDirCluster == 0 {
        disk.WriteSector(68, buffer);
      } else {
        disk.WriteSector(DataSector(currentDirCluster), buffer);
      }
    }

    /** Reads the entry byte by byte; for a cluster of the table this is the entry of its 16-bit view. */
    method GetNextCluster(c: u16) returns (next: u16)
      ensures next == NextCluster(disk.sectors, c)
      ensures c < 256 ==> next == Table(disk.sectors)[c]
    {
      var fatOffset := c * 2;
      var fatSector := 50 + fatOffset / 512;
      var entryOffset := fatOffset % 512;
      var buffer := new byte[512];
      disk.ReadSector(fatSector, buffer);
      assert fatSector == 50 + c / 256 && entryOffset == 2 * (c % 256);
      var lowByte, highByte := buffer[entryOffset], buffer[entryOffset + 1];
      next := Word(lowByte, highByte);
    }

    method FindFreeCluster() returns (c: u16)
      ensures c == V.FreeClusterFrom(Table(disk.sectors), 2)
    {
      var table := new byte[512];
      disk.ReadSector(50, table);
      var i := 2;
      while i < 256
        invariant 2 <= i <= 256
        invariant table[..] == disk.sectors[50]
        invariant V.FreeClusterFrom(Table(disk.sectors), 2) == V.FreeClusterFrom(Table(disk.sectors), i)
      {
        if FatEntry(table[..], i) == FREE {
          return i;
        }
        i := i + 1;
      }
      return 0;
    }

    method FindFreeDirEntry(entries: array<byte>) returns (r: int)
      requires entries.Length == 512
      ensures r == match V.FreeSlotFrom(entries[..], 0) case None => -1 case Some(k) => k
    {
      var i := 0;
      while i < 16
        invariant 0 <= i <= 16
        invariant V.FreeSlotFrom(entries[..], 0) == V.FreeSlotFrom(entries[..], i)
      {
        assert EntryAt(entries[..], i).name[0] == entries[32 * i];
        if entries[32 * i] == END_MARK || entries[32 * i] == DELETED_MARK {
          return i;
        }
        i := i + 1;
      }
      return -1;
    }

    method NameMatches(entries: array<byte>, i: slot, paddedName: array<byte>) returns (isMatch: bool)
      requires entries.Length == 512 && paddedName.Length == 8
      ensures isMatch == V.Matches(paddedName[..], EntryAt(entries[..], i).name)
    {
      isMatch := true;
      var j := 0;
      while j < 8
        invariant 0 <= j <= 8 && isMatch
        invariant forall o :: 0 <= o < j ==> SignedChar(paddedName[..][o]) == EntryAt(entries[..], i).name[o]
      {
        assert EntryAt(entries[..], i).name[j] == entries[32 * i + j];
        if SignedChar(paddedName[j]) != entries[32 * i + j] {
          assert paddedName[..][j] == paddedName[j];
          isMatch := false;
          break;
        }
        j := j + 1;
      }
    }

    method PadName(name: seq<byte>) returns (paddedName: array<byte>)
      ensures fresh(paddedName) && paddedName[..] == Pad(name, 8)
    {
      paddedName := new byte[8];
      for i := 0 to 8
        invariant forall o :: 0 <= o < i ==> paddedName[o] == Pad(name, 8)[o]
      {
        paddedName[i] := if i < |name| then name[i] else ' ' as int;
      }
    }

    /** The search loop that cat, cd and rm share. */
    method FindEntry(entries: array<byte>, name: seq<byte>) returns (r: Option<slot>)
      requires entries.Length == 512
      ensures r == V.FindFrom(entries[..], Pad(name, 8), 0)
    {
      var paddedName := PadName(name);
      ghost var s, p := entries[..], paddedName[..];
      var i := 0;
      while i < 16
        invariant 0 <= i <= 16 && entries[..] == s && paddedName[..] == p
        invariant V.FindFrom(s, p, 0) == V.FindFrom(s, p, i)
      {
        assert EntryAt(s, i).name[0] == entries[32 * i];
        if entries[32 * i] == END_MARK {
          return None;
        }
        if entries[32 * i] != DELETED_MARK {
          var isMatch := NameMatches(entries, i, paddedName);
          if isMatch {
            return Some(i);
          }
        }
        i := i + 1;
      }
      return None;
    }

    /** Reads the current directory and searches it. */
    method Search(name: seq<byte>) returns (entries: array<byte>, found: Option<slot>)
      requires Valid()
      ensures fresh(entries) && entries.Length == 512 && entries[..] == State().Directory()
      ensures found == V.Find(State(), name)
    {
      entries := new byte[512];
      ReadCurrentDirectory(entries);
      found := FindEntry(entries, name);
    }

    /** A sector that has these bytes in slot k and the old ones elsewhere. */
    static lemma StoredBytes(s: sector, t: sector, k: slot, name: seq<byte>, attributes: byte, cluster: u16, size: u32)
      requires |name| == 11
      requires var b, r := 32 * k, TailBytes(cluster, size);
        && (forall o :: b <= o < b + 11 ==> t[o] == name[o - b])
        && t[b + 11] == attributes
        && (forall o :: b + 26 <= o < b + 32 ==> t[o] == r[o - b - 26])
        && (forall o :: 0 <= o < b || b + 12 <= o < b + 26 || b + 32 <= o < 512 ==> t[o] == s[o])
      ensures t == PutEntry(s, k, name, attributes, cluster, size)
    {
      var was, now, b := SlotBytes(s, k), SlotBytes(t, k), 32 * k;
      var put := FilledIn(was, name, attributes, cluster, size);
      forall i | 0 <= i < 32
        ensures now[i] == put[i]
      {
        assert now[i] == t[b + i] && was[i] == s[b + i];
        if i < 11 {
          assert put[i] == name[i];
        } else if 11 < i < 26 {
          assert put[i] == was[12..26][i - 12] == was[i];
        } else if i >= 26 {
          assert put[i] == TailBytes(cluster, size)[i - 26];
        }
      }
      assert now == put;
      assert t[..32 * k] == s[..32 * k];
      assert t[32 * k + 32..] == s[32 * k + 32..];
      assert t == t[..32 * k] + now + t[32 * k + 32..];
    }

    method StoreEntry(entries: array<byte>, k: slot, name: seq<byte>, attributes: byte, cluster: u16, size: u32)
      requires entries.Length == 512 && |name| == 11
      modifies entries
      ensures entries[..] == PutEntry(old(entries[..]), k, name, attributes, cluster, size)
    {
      var b := 32 * k;
      for i := 0 to 11
        invariant forall o :: 0 <= o < 512 ==>
          entries[o] == if b <= o < b + i then name[o - b] else old(entries[o])
      {
        entries[b + i] := name[i];
      }
      entries[b + 28], entries[b + 29] := size % 0x100, size / 0x100 % 0x100;
      entries[b + 30], entries[b + 31] := size / 0x100 / 0x100 % 0x100, size / 0x100 / 0x100 / 0x100;
      entries[b + 11] := attributes;
      entries[b + 26], entries[b + 27] := cluster % 0x100, cluster / 0x100;
      StoredBytes(old(entries[..]), entries[..], k, name, attributes, cluster, size);
    }

    method StoreFatEntry(table: array<byte>, c: nat, v: u16)
      requires table.Length == 512 && c < 256
      modifies table
      ensures table[..] == PutFat(old(table[..]), c, v)
    {
      table[2 * c] := v % 0x100;
      table[2 * c + 1] := v / 0x100;
    }

    method AllocateCluster(c: u16)
      requires InRange(c)
      modifies disk
      ensures disk.sectors == V.Allocate(old(disk.sectors), c)
      ensures disk.history == old(disk.history) + [disk.sectors]
    {
      var table := new byte[512];
      disk.ReadSector(50, table);
      StoreFatEntry(table, c, 0xFFFF);
      disk.WriteSector(50, table);
    }

    // ----- the calls

    /** The part that write_file and make_directory share once the cluster and the slot are found: the directory
        is written first, then the contents, then the FAT. */
    method InstallEntry(entries: array<byte>, k: slot, name: seq<byte>, attributes: byte, c: u16, size: u32,
                        data: array<byte>)
      requires Valid() && entries.Length == 512 && data.Length == 512 && entries != data && |name| == 11 && InRange(c)
      requires entries[..] == State().Directory()
      modifies disk, entries
      ensures var v, body := old(State()), old(data[..]);
        && disk.sectors == V.Install(v.disk, v.cwd, k, name, attributes, c, size, body)
        && disk.history == old(disk.history)
          + V.InstallWrites(v.disk, v.cwd, k, name, attributes, c, size, body)
    {
      StoreEntry(entries, k, name, attributes, c, size);
      WriteCurrentDirectory(entries);
      disk.WriteSector(DataSector(c), data);
      AllocateCluster(c);
    }

    /** What write_file and make_directory have in common: find a cluster and a slot, and install the entry. */
    method Create(name: seq<byte>, attributes: byte, size: u32, data: array<byte>) returns (reply: V.Reply)
      requires Valid() && |name| == 11 && data.Length == 512
      modifies disk
      ensures Valid() && (State(), reply) == V.Create(old(State()), name, attributes, size, old(data[..]))
      ensures disk.history == old(disk.history) + V.CreateWrites(old(State()), name, attributes, size, old(data[..]))
    {
      V.CreateCases(State(), name, attributes, size, data[..]);
      var freeCluster := FindFreeCluster();
      if freeCluster == 0 {
        return V.DiskFull;
      }
      var entries := new byte[512];
      ReadCurrentDirectory(entries);
      var freeEntry := FindFreeDirEntry(entries);
      if freeEntry == -1 {
        return V.DirectoryFull;
      }
      InstallEntry(entries, freeEntry, name, attributes, freeCluster, size, data);
      return V.Stored;
    }

    method WriteFile(filename: seq<byte>, content: seq<byte>)
      requires Valid() && V.Proper(V.Write(filename, content))
      modifies disk, console
      ensures Valid() && State() == V.WriteFile(old(State()), filename, content).0
      ensures disk.history == old(disk.history) + V.WriteFileWrites(old(State()), filename, content)
      ensures console.out == old(console.out)
        + V.Messages(V.Write(filename, content), V.WriteFile(old(State()), filename, content).1)
    {
      var data := FileData(content);
      var reply := Create(filename, ARCHIVE, |content| % 0x1_0000_0000, data);
      console.PrintAll(V.Messages(V.Write(filename, content), reply));
    }

    method FileData(content: seq<byte>) returns (data: array<byte>)
      ensures fresh(data) && data[..] == V.FileSector(content)
    {
      data := new byte[512](_ => 0);
      var i := 0;
      while i < |content| && i < 511
        invariant 0 <= i <= |content| && i <= 511
        invariant forall o :: 0 <= o < 512 ==> data[o] == if o < i then content[o] else 0
      {
        data[i] := content[i];
        i := i + 1;
      }
    }

    method MakeDirectory(dirname: seq<byte>)
      requires Valid() && V.Proper(V.Mkdir(dirname))
      modifies disk, console
      ensures Valid() && State() == V.MakeDirectory(old(State()), dirname).0
      ensures disk.history == old(disk.history) + V.MakeDirectoryWrites(old(State()), dirname)
      ensures console.out == old(console.out) + V.Messages(V.Mkdir(dirname), V.MakeDirectory(old(State()), dirname).1)
    {
      var data := EmptyCluster();
      var name := DirectoryName(dirname);
      var reply := Create(name[..], DIRECTORY, 0, data);
      console.PrintAll(V.Messages(V.Mkdir(dirname), reply));
    }

    method EmptyCluster() returns (data: array<byte>)
      ensures fresh(data) && data[..] == ZeroSector()
    {
      data := new byte[512];
      for i := 0 to 512
        invariant forall o :: 0 <= o < i ==> data[o] == 0
      {
        data[i] := 0;
      }
    }

    method DirectoryName(dirname: seq<byte>) returns (name: array<byte>)
      ensures fresh(name) && name[..] == Pad(dirname, 8) + V.BLANK_EXT
    {
      name := new byte[11];
      for i := 0 to 11
        invariant forall o :: 0 <= o < i ==> name[o] == (Pad(dirname, 8) + V.BLANK_EXT)[o]
      {
        name[i] := if i < 8 && i < |dirname| then dirname[i] else ' ' as int;
      }
    }

    /** The cluster of the entry is taken as it is; on a safe disk it leads to a directory, see
        Simulation.StepSimulates. */
    method ChangeDirectory(dirname: seq<byte>)
      requires Valid() && V.Proper(V.Cd(dirname))
      modifies this, console
      ensures State() == V.ChangeDirectory(old(State()), dirname).0
      ensures console.out == old(console.out) + V.Messages(V.Cd(dirname), V.ChangeDirectory(old(State()), dirname).1)
      ensures dirname == [47] || dirname == [46, 46] ==> State() == old(State()).(cwd := 0)
    {
      if dirname == ['/' as int] || dirname == ['.' as int, '.' as int] {
        currentDirCluster := 0;
        console.PrintAll(V.Messages(V.Cd(dirname), V.AtRoot));
        return;
      }
      var entries, found := Search(dirname);
      if found == None {
        console.PrintAll(V.Messages(V.Cd(dirname), V.NotFound));
        return;
      }
      var e := EntryAt(entries[..], found.value);
      if e.IsDirectory() {
        currentDirCluster := e.cluster;
        console.PrintAll(V.Messages(V.Cd(dirname), V.Entered));
      } else {
        console.PrintAll(V.Messages(V.Cd(dirname), V.NotADirectory));
      }
    }

    /** The freeing loop ends on every table that confines the walk, cyclic ones included, and frees
        exactly the clusters that the walk reaches. */
    method FreeLoop(table: array<byte>, start: u16)
      requires table.Length == 512 && Confined(Fat(table[..]), start)
      modifies table
      ensures Fat(table[..]) == Freed(Fat(old(table[..])), start)
    {
      ghost var f := Fat(table[..]);
      ghost var done, n, closed := {}, 0, false;
      var current := start;
      while current >= 2 && current < 0xFFF8
        invariant Freeing(f, start, Fat(table[..]), done, n, current, closed)
        decreases Rest(done), if closed then 0 else 1
      {
        assert InRange(current) by {
          assert Hop(f, start, n) < 256 || Hop(f, start, n) >= END_OF_CHAIN;
        }
        ghost var s := table[..];
        var nextCluster := FatEntry(table[..], current);
        StoreFatEntry(table, current, 0x0000);
        PutFatUpdates(s, current, FREE);
        done, n, closed := FreeingStep(f, start, Fat(s), done, n, current);
        current := nextCluster;
      }
      FreeingDone(f, start, Fat(table[..]), done, n, current, closed);
    }

    /** The clusters that the walk from the entry reaches must lie in the table. The entry is marked before the FAT
        is rewritten. */
    method RemoveFile(filename: seq<byte>)
      requires Valid() && V.Proper(V.Rm(filename))
      requires V.Find(State(), filename).Some? ==>
        Confined(Table(disk.sectors), EntryAt(State().Directory(), V.Find(State(), filename).value).cluster)
      modifies disk, console
      ensures Valid() && State() == V.RemoveFile(old(State()), filename).0
      ensures disk.history == old(disk.history) + V.RemoveWrites(old(State()), filename)
      ensures console.out == old(console.out) + V.Messages(V.Rm(filename), V.RemoveFile(old(State()), filename).1)
    {
      var entries, found := Search(filename);
      if found == None {
        console.PrintAll(V.Messages(V.Rm(filename), V.NotFound));
        return;
      }
      var startCluster := EntryAt(entries[..], found.value).cluster;
      entries[32 * found.value] := DELETED_MARK;
      WriteCurrentDirectory(entries);
      FreeFrom(startCluster);
      console.PrintAll(V.Messages(V.Rm(filename), V.Deleted));
    }

    method FreeFrom(startCluster: u16)
      requires Confined(Table(disk.sectors), startCluster)
      modifies disk
      ensures disk.sectors == V.FreeClustersFrom(old(disk.sectors), startCluster)
      ensures disk.history == old(disk.history) + if startCluster >= 2 then [disk.sectors] else []
    {
      if startCluster >= 2 {
        var table := new byte[512];
        disk.ReadSector(50, table);
        FreeLoop(table, startCluster);
        FatSectorStores(Freed(Table(disk.sectors), startCluster));
        FatInjective(table[..], FatSector(Freed(Table(disk.sectors), startCluster)));
        disk.WriteSector(50, table);
      } else {
        NothingFreed(disk.sectors, startCluster);
      }
    }

    static lemma NothingFreed(d: disk, c: u16)
      requires c < 2
      ensures V.FreeClustersFrom(d, c) == d
    {
      forall x: u16
        ensures !Reached(Table(d), c, x)
      {
        if exists n: nat :: Hop(Table(d), c, n) == x {
          var n: nat :| Hop(Table(d), c, n) == x;
          HopStuck(Table(d), c, 0, n);
        }
      }
      assert Freed(Table(d), c) == Table(d);
      FatSectorStores(Table(d));
      FatInjective(d[FAT_SECTOR], FatSector(Table(d)));
    }

    /** Prints a file; the walk from its cluster must come to an end. */
    method CatFile(filename: seq<byte>)
      requires Valid() && V.Proper(V.Cat(filename)) && V.CatEnds(State(), filename)
      modifies console
      ensures console.out == old(console.out) + V.Messages(V.Cat(filename), V.CatFile(State(), filename))
    {
      var entries, found := Search(filename);
      if found == None {
        console.PrintAll(V.Messages(V.Cat(filename), V.NotFound));
        return;
      }
      CatSays(State(), filename);
      ShowWalk(EntryAt(entries[..], found.value).cluster);
    }

    static lemma CatSays(v: V.Volume, filename: seq<byte>)
      requires v.Valid() && V.Find(v, filename).Some? && V.CatEnds(v, filename)
      ensures V.Messages(V.Cat(filename), V.CatFile(v, filename)) == [V.NEWLINE]
        + V.TextsFrom(v.disk, EntryAt(v.Directory(), V.Find(v, filename).value).cluster) + [V.TWO_NEWLINES]
    {
    }

    method ShowWalk(start: u16)
      requires Ends(disk.sectors, start)
      modifies console
      ensures console.out == old(console.out)
        + ([V.NEWLINE] + V.TextsFrom(disk.sectors, start) + [V.TWO_NEWLINES])
    {
      console.Print(V.NEWLINE);
      PrintWalk(start);
      console.Print(V.TWO_NEWLINES);
    }

    /** The walk stands at place i. */
    static ghost predicate Walking(d: disk, start: u16, i: nat, cluster: u16) {
      Ends(d, start) && i <= |Walk(d, start)| && IsWalk(d, cluster, Walk(d, start)[i..])
    }

    /** The texts of the first i clusters of the walk. */
    static ghost function TextTo(d: disk, start: u16, i: nat): seq<message>
      requires Ends(d, start) && i <= |Walk(d, start)|
    {
      V.TextsFrom(d, start)[..i]
    }

    static lemma WalkStep(d: disk, start: u16, i: nat, cluster: u16)
      requires Walking(d, start, i, cluster) && GoesOn(cluster)
      ensures i < |Walk(d, start)| && Readable(d, cluster) && Walking(d, start, i + 1, NextCluster(d, cluster))
      ensures TextTo(d, start, i + 1) == TextTo(d, start, i) + [Text(d[DataSector(cluster)])]
    {
      assert Walk(d, start)[i..][1..] == Walk(d, start)[i + 1..];
    }

    static lemma WalkIsOver(d: disk, start: u16, i: nat, cluster: u16)
      requires Walking(d, start, i, cluster) && !GoesOn(cluster)
      ensures TextTo(d, start, i) == V.TextsFrom(d, start)
    {
      assert V.TextsFrom(d, start)[..i] == V.TextsFrom(d, start);
    }

    /** Visits exactly the walk, in order, and prints each cluster up to its first NUL. */
    method PrintWalk(start: u16)
      requires Ends(disk.sectors, start)
      modifies console
      ensures console.out == old(console.out) + V.TextsFrom(disk.sectors, start)
    {
      ghost var d, i := disk.sectors, 0;
      var cluster := start;
      assert Walk(d, start)[0..] == Walk(d, start);
      while cluster >= 2 && cluster < 0xFFF8
        invariant Walking(d, start, i, cluster)
        invariant console.out == old(console.out) + TextTo(d, start, i)
        decreases |Walk(d, start)| - i
      {
        cluster := PrintNext(start, i, cluster);
        i := i + 1;
      }
      WalkIsOver(d, start, i, cluster);
    }

    /** One turn of its loop. */
    method PrintNext(ghost start: u16, ghost i: nat, cluster: u16) returns (next: u16)
      requires Walking(disk.sectors, start, i, cluster) && GoesOn(cluster)
      modifies console
      ensures i < |Walk(disk.sectors, start)| && Walking(disk.sectors, start, i + 1, next)
      ensures TextTo(disk.sectors, start, i + 1)
           == TextTo(disk.sectors, start, i) + [Text(disk.sectors[DataSector(cluster)])]
      ensures console.out == old(console.out) + [Text(disk.sectors[DataSector(cluster)])]
    {
      WalkStep(disk.sectors, start, i, cluster);
      PrintCluster(cluster);
      next := GetNextCluster(cluster);
    }

    method PrintCluster(cluster: u16)
      requires Readable(disk.sectors, cluster)
      modifies console
      ensures console.out == old(console.out) + [Text(disk.sectors[DataSector(cluster)])]
    {
      var fileData := new byte[512];
      disk.ReadSector(DataSector(cluster), fileData);
      PrintText(fileData);
    }

    method PrintText(fileData: array<byte>)
      requires fileData.Length == 512
      modifies console, fileData
      ensures console.out == old(console.out) + [Text(old(fileData[..]))]
    {
      ghost var s := fileData[..];
      fileData[511] := 0;
      UpToNulUnique(fileData[..], Text(s));
      console.Print(UpToNul(fileData[..]));
    }
  }
}
