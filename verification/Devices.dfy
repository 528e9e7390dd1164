/** The devices that the kernel's calls act on: the disk and the text console. */
module Devices {
  import opened Bytes
  import opened Tree

  class Disk {
    var sectors: disk
    /** The disks after every sector write so far. */
    ghost var history: seq<disk>

    constructor (image: disk)
      ensures sectors == image && history == []
    {
      sectors, history := image, [];
    }

    method ReadSector(lba: int, buffer: array<byte>)
      requires 0 <= lba < |sectors| && buffer.Length == 512
      modifies buffer
      ensures buffer[..] == sectors[lba]
    {
      forall i | 0 <= i < 512 {
        buffer[i] := sectors[lba][i];
      }
    }

    method WriteSector(lba: int, buffer: array<byte>)
      requires 0 <= lba < |sectors| && buffer.Length == 512
      modifies this
      ensures sectors == old(sectors)[lba := buffer[..]] && history == old(history) + [sectors]
    {
      sectors := sectors[lba := buffer[..]];
      history := history + [sectors];
    }
  }

  /** Everything handed to print, message by message; a character that is printed alone is a message too. */
  class Console {
    var out: seq<message>

    constructor ()
      ensures out == []
    {
      out := [];
    }

    method Print(m: message)
      modifies this
      ensures out == old(out) + [m]
    {
      out := out + [m];
    }

    /** Several calls of print. */
    method PrintAll(ms: seq<message>)
      modifies this
      ensures out == old(out) + ms
    {
      ghost var before := out;
      for i := 0 to |ms|
        invariant out == before + ms[..i]
      {
        Print(ms[i]);
      }
      assert ms[..|ms|] == ms;
    }
  }
}
