/** How the FAT and the directories are laid out in 512-byte sectors. */
module Layout {
  import opened Bytes

  type sector = s: seq<byte> | |s| == 512 witness seq(512, _ => 0)
  type slot = i: int | 0 <= i < 16

  function ZeroSector(): sector {
    seq(512, _ => 0)
  }
  const FREE: u16 := 0x0000
  const END_OF_CHAIN: u16 := 0xFFF8
  const LAST_CLUSTER: u16 := 0xFFFF
  const END_MARK: byte := 0x00
  const DELETED_MARK: byte := 0xE5
  const DIRECTORY: byte := 0x10
  const ARCHIVE: byte := 0x20

  // ----- the FAT sector: 256 little-endian 16-bit entries

  type fat = f: seq<u16> | |f| == 256 witness seq(256, _ => 0)

  function FatEntry(s: sector, c: nat): u16
    requires c < 256
  {
    Word(s[2 * c], s[2 * c + 1])
  }

  function Fat(s: sector): fat {
    seq(256, c requires 0 <= c < 256 => FatEntry(s, c))
  }

  function PutFat(s: sector, c: nat, v: u16): sector
    requires c < 256
  {
    s[2 * c := v % 0x100][2 * c + 1 := v / 0x100]
  }

  lemma PutFatUpdates(s: sector, c: nat, v: u16)
    requires c < 256
    ensures Fat(PutFat(s, c, v)) == Fat(s)[c := v]
  {
  }

  /** The 16-bit view loses nothing: two FAT sectors with equal entries are equal. */
  lemma FatInjective(s: sector, t: sector)
    requires Fat(s) == Fat(t)
    ensures s == t
  {
    forall i: nat | i < 512
      ensures s[i] == t[i]
    {
      var c := i / 2;
      assert Fat(s)[c] == FatEntry(s, c) && Fat(t)[c] == FatEntry(t, c);
    }
  }

  /** The sector that stores a table. */
  function FatSector(f: fat): sector {
    seq(512, i requires 0 <= i < 512 => if i % 2 == 0 then f[i / 2] % 0x100 else f[i / 2] / 0x100)
  }

  lemma FatSectorStores(f: fat)
    ensures Fat(FatSector(f)) == f
  {
  }

  // ----- directory sectors: 16 entries of 32 bytes

  datatype Entry = Entry(name: seq<byte>, ext: seq<byte>, attributes: byte, cluster: u16, size: u32) {
    /** Neither free nor deleted. */
    predicate Live()
      requires |name| == 8
    {
      name[0] != END_MARK && name[0] != DELETED_MARK
    }

    predicate IsDirectory() {
      attributes == DIRECTORY
    }
  }

  type slotBytes = b: seq<byte> | |b| == 32 witness seq(32, _ => 0)

  /** The 32 bytes of slot i. */
  function SlotBytes(s: sector, i: slot): slotBytes {
    s[32 * i..32 * i + 32]
  }

  /** What 32 bytes stand for. */
  function EntryOf(b: slotBytes): (e: Entry)
    ensures |e.name| == 8 && |e.ext| == 3
  {
    Entry(b[..8], b[8..11], b[11], Word(b[26], b[27]), DoubleWord(b[28], b[29], b[30], b[31]))
  }

  function EntryAt(s: sector, i: slot): (e: Entry)
    ensures |e.name| == 8 && |e.ext| == 3
  {
    EntryOf(SlotBytes(s, i))
  }

  /** The fields that the kernel stores behind the gap: the low half of the cluster, and the size. */
  function TailBytes(cluster: u16, size: u32): (r: seq<byte>)
    ensures |r| == 6
  {
    var a := size / 0x100;
    var b := a / 0x100;
    [cluster % 0x100, cluster / 0x100, size % 0x100, a % 0x100, b % 0x100, b / 0x100]
  }

  /** The 32 bytes `was` of a slot with the fields filled in; the bytes between attributes and cluster stay. */
  function FilledIn(was: slotBytes, name: seq<byte>, attributes: byte, cluster: u16, size: u32): slotBytes
    requires |name| == 11
  {
    name + [attributes] + was[12..26] + TailBytes(cluster, size)
  }

  function PutEntry(s: sector, k: slot, name: seq<byte>, attributes: byte, cluster: u16, size: u32): sector
    requires |name| == 11
  {
    s[..32 * k] + FilledIn(SlotBytes(s, k), name, attributes, cluster, size) + s[32 * k + 32..]
  }

  /** Replacing the bytes of slot k replaces exactly those. */
  lemma ReplacedBytes(s: sector, k: slot, b: slotBytes, j: slot)
    ensures SlotBytes(s[..32 * k] + b + s[32 * k + 32..], j) == if j == k then b else SlotBytes(s, j)
  {
    var t := s[..32 * k] + b + s[32 * k + 32..];
    if j < k {
      assert t[..32 * k] == s[..32 * k];
      assert SlotBytes(t, j) == t[..32 * k][32 * j..32 * j + 32];
    } else if j > k {
      assert t[32 * k + 32..] == s[32 * k + 32..];
      assert SlotBytes(t, j) == t[32 * k + 32..][32 * (j - k - 1)..32 * (j - k - 1) + 32];
    }
  }

  /** The stored bytes stand for the numbers. */
  lemma TailStands(cluster: u16, size: u32)
    ensures var r := TailBytes(cluster, size);
      Word(r[0], r[1]) == cluster && DoubleWord(r[2], r[3], r[4], r[5]) == size
  {
    var a := size / 0x100;
    var b := a / 0x100;
    assert size == 0x100 * a + size % 0x100 && a == 0x100 * b + a % 0x100 && b == 0x100 * (b / 0x100) + b % 0x100;
  }

  lemma FilledInParts(was: slotBytes, name: seq<byte>, attributes: byte, cluster: u16, size: u32)
    requires |name| == 11
    ensures var b := FilledIn(was, name, attributes, cluster, size);
      b[..8] == name[..8] && b[8..11] == name[8..] && b[11] == attributes && b[26..] == TailBytes(cluster, size)
  {
  }

  /** The filled-in bytes stand for the fields. */
  lemma FilledInEntry(was: slotBytes, name: seq<byte>, attributes: byte, cluster: u16, size: u32)
    requires |name| == 11
    ensures EntryOf(FilledIn(was, name, attributes, cluster, size))
         == Entry(name[..8], name[8..], attributes, cluster, size)
  {
    var b, r := FilledIn(was, name, attributes, cluster, size), TailBytes(cluster, size);
    FilledInParts(was, name, attributes, cluster, size);
    assert forall i :: 0 <= i < 6 ==> b[26 + i] == b[26..][i] == r[i];
    TailStands(cluster, size);
  }

  lemma PutEntryAt(s: sector, k: slot, name: seq<byte>, attributes: byte, cluster: u16, size: u32, j: slot)
    requires |name| == 11
    ensures EntryAt(PutEntry(s, k, name, attributes, cluster, size), j)
         == if j == k then Entry(name[..8], name[8..], attributes, cluster, size) else EntryAt(s, j)
  {
    ReplacedBytes(s, k, FilledIn(SlotBytes(s, k), name, attributes, cluster, size), j);
    FilledInEntry(SlotBytes(s, k), name, attributes, cluster, size);
  }

  /** Marking slot k deleted touches one byte. */
  function Delete(s: sector, k: slot): sector {
    s[32 * k := DELETED_MARK]
  }

  lemma DeletedBytes(s: sector, k: slot, j: slot)
    ensures SlotBytes(Delete(s, k), j) == if j == k then SlotBytes(s, k)[0 := DELETED_MARK] else SlotBytes(s, j)
  {
  }

  lemma DeleteAt(s: sector, k: slot, j: slot)
    ensures j == k ==> !EntryAt(Delete(s, k), k).Live() && EntryAt(Delete(s, k), k).name[0] == DELETED_MARK
    ensures j != k ==> EntryAt(Delete(s, k), j) == EntryAt(s, j)
  {
    DeletedBytes(s, k, j);
  }

  lemma ZeroEntry(i: slot)
    ensures EntryAt(ZeroSector(), i).name[0] == END_MARK
  {
  }
}
