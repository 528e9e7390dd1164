/** The file system calls as functions on the bytes of the disk and the current directory. */
module Volume {
  import opened Bytes
  import opened Layout
  import opened Chains
  import opened Tree

  datatype Volume = Volume(disk: disk, cwd: u16) {
    predicate Valid() {
      IsDir(cwd)
    }

    function Directory(): sector
      requires Valid()
    {
      disk[DirSector(cwd)]
    }
  }

  /** A disk whose FAT and root directory are zero; its data sectors may hold anything. */
  predicate Blank(d: disk) {
    d[FAT_SECTOR] == ZeroSector() && d[ROOT_SECTOR] == ZeroSector()
  }

  /** How a call ends; Shown carries the texts handed to the screen between the blank lines. */
  datatype Reply =
    | DiskFull | DirectoryFull | Stored
    | AtRoot | Entered | NotADirectory
    | Deleted | NotFound | Shown(pieces: seq<seq<byte>>)

  // ----- the searches

  /** The first free cluster from i on, 0 if there is none. */
  function FreeClusterFrom(f: fat, i: nat): (c: u16)
    requires 2 <= i <= 256
    ensures c == 0 ==> forall x :: i <= x < 256 ==> f[x] != FREE
    ensures c != 0 ==> i <= c < 256 && f[c] == FREE && forall x :: i <= x < c ==> f[x] != FREE
    decreases 256 - i
  {
    if i == 256 then 0 else if f[i] == FREE then i else FreeClusterFrom(f, i + 1)
  }

  /** The first slot from i on that is free or deleted. */
  function FreeSlotFrom(s: sector, i: nat): (r: Option<slot>)
    requires i <= 16
    ensures r == None ==> forall j: slot :: i <= j ==> EntryAt(s, j).Live()
    ensures r.Some? ==> i <= r.value && !EntryAt(s, r.value).Live()
    ensures r.Some? ==> forall j: slot :: i <= j < r.value ==> EntryAt(s, j).Live()
    decreases 16 - i
  {
    if i == 16 then None else if !EntryAt(s, i).Live() then Some(i) else FreeSlotFrom(s, i + 1)
  }

  /** Names are compared character by character as ints: a signed char against an unsigned char. */
  predicate Matches(padded: seq<byte>, name: seq<byte>)
    requires |padded| == 8 && |name| == 8
  {
    forall j :: 0 <= j < 8 ==> SignedChar(padded[j]) == name[j]
  }

  /** The first slot from i on with a live entry of this name, before the end mark. */
  function FindFrom(s: sector, padded: seq<byte>, i: nat): (r: Option<slot>)
    requires i <= 16 && |padded| == 8
    decreases 16 - i
  {
    if i == 16 || EntryAt(s, i).name[0] == END_MARK then None
    else if EntryAt(s, i).name[0] != DELETED_MARK && Matches(padded, EntryAt(s, i).name) then Some(i)
    else FindFrom(s, padded, i + 1)
  }

  function Find(v: Volume, name: seq<byte>): (r: Option<slot>)
    requires v.Valid()
  {
    FindFrom(v.Directory(), Pad(name, 8), 0)
  }

  const BLANK_EXT: seq<byte> := [0x20, 0x20, 0x20]

  // ----- write_file and make_directory: link the entry, fill the cluster, allocate it

  function LinkEntry(d: disk, cwd: u16, k: slot, name: seq<byte>, attributes: byte, c: u16, size: u32): disk
    requires IsDir(cwd) && |name| == 11
  {
    d[DirSector(cwd) := PutEntry(d[DirSector(cwd)], k, name, attributes, c, size)]
  }

  function Fill(d: disk, c: u16, body: sector): disk
    requires InRange(c)
  {
    d[DataSector(c) := body]
  }

  function Allocate(d: disk, c: u16): disk
    requires InRange(c)
  {
    d[FAT_SECTOR := PutFat(d[FAT_SECTOR], c, LAST_CLUSTER)]
  }

  function Install(d: disk, cwd: u16, k: slot, name: seq<byte>, attributes: byte, c: u16, size: u32, body: sector): disk
    requires IsDir(cwd) && |name| == 11 && InRange(c)
  {
    Allocate(Fill(LinkEntry(d, cwd, k, name, attributes, c, size), c, body), c)
  }

  /** The guard of write_file and make_directory. */
  predicate HasRoom(v: Volume)
    requires v.Valid()
  {
    FreeClusterFrom(Table(v.disk), 2) != 0 && FreeSlotFrom(v.Directory(), 0).Some?
  }

  function Create(v: Volume, name: seq<byte>, attributes: byte, size: u32, body: sector): (r: (Volume, Reply))
    requires v.Valid() && |name| == 11
    ensures r.0.Valid()
  {
    var c := FreeClusterFrom(Table(v.disk), 2);
    if c == 0 then (v, DiskFull)
    else
      match FreeSlotFrom(v.Directory(), 0)
      case None => (v, DirectoryFull)
      case Some(k) => (v.(disk := Install(v.disk, v.cwd, k, name, attributes, c, size, body)), Stored)
  }

  /** The single cluster a new file gets: at most 511 bytes of it, NUL-padded. */
  function FileSector(content: seq<byte>): sector {
    seq(512, i requires 0 <= i < 512 => if i < |content| && i < 511 then content[i] else 0)
  }

  function WriteFile(v: Volume, name: seq<byte>, content: seq<byte>): (r: (Volume, Reply))
    requires v.Valid() && |name| == 11
    ensures r.0.Valid()
  {
    Create(v, name, ARCHIVE, |content| % 0x1_0000_0000, FileSector(content))
  }

  function MakeDirectory(v: Volume, name: seq<byte>): (r: (Volume, Reply))
    requires v.Valid()
    ensures r.0.Valid()
  {
    Create(v, Pad(name, 8) + BLANK_EXT, DIRECTORY, 0, ZeroSector())
  }

  // ----- change_directory

  const SLASH: seq<byte> := [47]
  const DOTS: seq<byte> := [46, 46]

  function ChangeDirectory(v: Volume, name: seq<byte>): (r: (Volume, Reply))
    requires v.Valid()
  {
    if name == SLASH || name == DOTS then (v.(cwd := 0), AtRoot)
    else
      match Find(v, name)
      case None => (v, NotFound)
      case Some(k) =>
        var e := EntryAt(v.Directory(), k);
        if e.IsDirectory() then (v.(cwd := e.cluster), Entered) else (v, NotADirectory)
  }

  // ----- remove_file: mark the entry, then free its chain

  function MarkDeleted(d: disk, cwd: u16, k: slot): disk
    requires IsDir(cwd)
  {
    d[DirSector(cwd) := Delete(d[DirSector(cwd)], k)]
  }

  ghost function FreeClustersFrom(d: disk, c: u16): disk {
    d[FAT_SECTOR := FatSector(Freed(Table(d), c))]
  }

  ghost function RemoveEntry(v: Volume, k: slot): (w: Volume)
    requires v.Valid()
    ensures w.Valid()
  {
    v.(disk := FreeClustersFrom(MarkDeleted(v.disk, v.cwd, k), EntryAt(v.Directory(), k).cluster))
  }

  ghost function RemoveFile(v: Volume, name: seq<byte>): (r: (Volume, Reply))
    requires v.Valid()
    ensures r.0.Valid()
  {
    match Find(v, name)
    case None => (v, NotFound)
    case Some(k) => (RemoveEntry(v, k), Deleted)
  }

  // ----- cat_file

  /** The walk from the entry found, if there is one, comes to an end. */
  ghost predicate CatEnds(v: Volume, name: seq<byte>)
    requires v.Valid()
  {
    Find(v, name).Some? ==> Ends(v.disk, EntryAt(v.Directory(), Find(v, name).value).cluster)
  }

  /** The texts of the clusters that a walk from c visits. */
  ghost function TextsFrom(d: disk, c: u16): seq<seq<byte>>
    requires Ends(d, c)
  {
    WalkPlaces(d, c, Walk(d, c));
    Pieces(d, Walk(d, c))
  }

  ghost function CatFile(v: Volume, name: seq<byte>): Reply
    requires v.Valid() && CatEnds(v, name)
  {
    match Find(v, name)
    case None => NotFound
    case Some(k) => Shown(TextsFrom(v.disk, EntryAt(v.Directory(), k).cluster))
  }

  // ----- the calls together

  datatype Command =
    | Write(name: seq<byte>, content: seq<byte>)
    | Mkdir(name: seq<byte>)
    | Cd(name: seq<byte>)
    | Rm(name: seq<byte>)
    | Cat(name: seq<byte>)

  /** What the callers pass: C strings, the one for write already padded to 8 + 3 characters. */
  predicate Proper(c: Command) {
    IsCString(c.name) && (c.Write? ==> |c.name| == 11 && IsCString(c.content))
  }

  ghost function Next(v: Volume, c: Command): Volume
    requires v.Valid() && Proper(c)
  {
    match c
    case Write(name, content) => WriteFile(v, name, content).0
    case Mkdir(name) => MakeDirectory(v, name).0
    case Cd(name) => ChangeDirectory(v, name).0
    case Rm(name) => RemoveFile(v, name).0
    case Cat(name) => v
  }

  ghost function ReplyTo(v: Volume, c: Command): Reply
    requires v.Valid() && Proper(c)
    requires c.Cat? ==> CatEnds(v, c.name)
  {
    match c
    case Write(name, content) => WriteFile(v, name, content).1
    case Mkdir(name) => MakeDirectory(v, name).1
    case Cd(name) => ChangeDirectory(v, name).1
    case Rm(name) => RemoveFile(v, name).1
    case Cat(name) => CatFile(v, name)
  }

  // ----- the calls sector write by sector write

  /** The disks after each sector write of an installation: entry, contents, allocation. */
  function InstallWrites(d: disk, cwd: u16, k: slot, name: seq<byte>, attributes: byte, c: u16, size: u32,
                         body: sector): seq<disk>
    requires IsDir(cwd) && |name| == 11 && InRange(c)
  {
    var linked := LinkEntry(d, cwd, k, name, attributes, c, size);
    [linked, Fill(linked, c, body), Allocate(Fill(linked, c, body), c)]
  }

  function CreateWrites(v: Volume, name: seq<byte>, attributes: byte, size: u32, body: sector): seq<disk>
    requires v.Valid() && |name| == 11
  {
    var c, k := FreeClusterFrom(Table(v.disk), 2), FreeSlotFrom(v.Directory(), 0);
    if c == 0 || k == None then [] else InstallWrites(v.disk, v.cwd, k.value, name, attributes, c, size, body)
  }

  /** The three ways a creation goes. */
  lemma CreateCases(v: Volume, name: seq<byte>, attributes: byte, size: u32, body: sector)
    requires v.Valid() && |name| == 11
    ensures var c, k := FreeClusterFrom(Table(v.disk), 2), FreeSlotFrom(v.Directory(), 0);
      var r, ws := Create(v, name, attributes, size, body), CreateWrites(v, name, attributes, size, body);
      if c == 0 then r == (v, DiskFull) && ws == []
      else if k == None then r == (v, DirectoryFull) && ws == []
      else
        && r == (v.(disk := Install(v.disk, v.cwd, k.value, name, attributes, c, size, body)), Stored)
        && ws == InstallWrites(v.disk, v.cwd, k.value, name, attributes, c, size, body)
  {
  }

  function WriteFileWrites(v: Volume, name: seq<byte>, content: seq<byte>): seq<disk>
    requires v.Valid() && |name| == 11
  {
    CreateWrites(v, name, ARCHIVE, |content| % 0x1_0000_0000, FileSector(content))
  }

  function MakeDirectoryWrites(v: Volume, name: seq<byte>): seq<disk>
    requires v.Valid()
  {
    CreateWrites(v, Pad(name, 8) + BLANK_EXT, DIRECTORY, 0, ZeroSector())
  }

  /** A removal marks the entry, and then rewrites the FAT unless the entry has no cluster. */
  ghost function RemoveWrites(v: Volume, name: seq<byte>): seq<disk>
    requires v.Valid()
  {
    match Find(v, name)
    case None => []
    case Some(k) =>
      var c, marked := EntryAt(v.Directory(), k).cluster, MarkDeleted(v.disk, v.cwd, k);
      if c >= 2 then [marked, FreeClustersFrom(marked, c)] else [marked]
  }

  /** The disk after every sector write of a call. */
  ghost function Writes(v: Volume, c: Command): seq<disk>
    requires v.Valid() && Proper(c)
  {
    match c
    case Write(name, content) => WriteFileWrites(v, name, content)
    case Mkdir(name) => MakeDirectoryWrites(v, name)
    case Rm(name) => RemoveWrites(v, name)
    case _ => []
  }

  // ----- what is printed

  const NEWLINE: message := [LINE_FEED]
  const TWO_NEWLINES: message := [LINE_FEED, LINE_FEED]

  /** What is handed to print for a reply. */
  function Messages(c: Command, r: Reply): seq<message> {
    match c
    case Write(name, _) =>
      if r == DiskFull then [Ascii("Error: disk is full\n")]
      else if r == DirectoryFull then [Ascii("Error: cannot create more file within the main root\n")]
      else [Ascii("file '"), name, Ascii("' save successfuly.\n")]
    case Mkdir(name) =>
      if r == DiskFull then [Ascii("Error: disk is full\n")]
      else if r == DirectoryFull then [Ascii("Error: root dir is full\n")]
      else [Ascii("Directory '"), name, Ascii("' successfuly create\n")]
    case Cd(name) =>
      if r == AtRoot then [Ascii("current position: root directory\n")]
      else if r == Entered then [Ascii("Entering the directory '"), name, Ascii("'\n")]
      else if r == NotADirectory then [Ascii("Error: '"), name, Ascii("' this is a file not a directory\n")]
      else [Ascii("Error: directory not found\n")]
    case Rm(name) =>
      if r == Deleted then [Ascii("file or directory '"), name, Ascii("' deleted.\n")]
      else [Ascii("Error: file not fount.\n")]
    case Cat(name) =>
      if r.Shown? then [NEWLINE] + r.pieces + [TWO_NEWLINES] else [Ascii("Error: File not found.\n")]
  }
}
