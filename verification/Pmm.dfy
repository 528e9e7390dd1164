/** The frame allocator: a bitmap packed into 32-bit words stands for a set of taken frames. */
module Pmm {
  import opened Words

  type word = w: int | 0 <= w < 0x1_0000_0000
  type frame = f: int | 0 <= f < FRAMES

  const FRAMES := 4096
  const WORDS := 128
  const FRAME_SIZE := 4096
  const RESERVED := 256

  // ----- the bitmap as a set

  predicate Taken(words: seq<word>, f: frame)
    requires |words| == WORDS
  {
    Bit(words[f / 32], f % 32)
  }

  function TakenFrames(words: seq<word>): set<frame>
    requires |words| == WORDS
  {
    set f: frame | 0 <= f < FRAMES && Taken(words, f)
  }

  function Mask(f: frame): nat {
    Pow2(f % 32)
  }

  lemma Width32(x: nat, y: nat)
    ensures Or(x, y, 32) < 0x1_0000_0000 && And(x, y, 32) < 0x1_0000_0000 && Not(x, 32) < 0x1_0000_0000
  {
    Width(x, y, 32);
    Pow2Of32();
  }

  lemma Pow2Of32()
    ensures Pow2(32) == 0x1_0000_0000
  {
    assert Pow2(8) == 0x100;
    assert Pow2(16) == 0x1_0000;
    assert Pow2(24) == 0x100_0000;
  }

  function SetIn(words: seq<word>, f: frame): seq<word>
    requires |words| == WORDS
  {
    Width32(words[f / 32], Mask(f));
    words[f / 32 := Or(words[f / 32], Mask(f), 32)]
  }

  function ClearIn(words: seq<word>, f: frame): seq<word>
    requires |words| == WORDS
  {
    Width32(words[f / 32], Not(Mask(f), 32));
    words[f / 32 := And(words[f / 32], Not(Mask(f), 32), 32)]
  }

  lemma SetTakes(words: seq<word>, f: frame, g: frame)
    requires |words| == WORDS
    ensures Taken(SetIn(words, f), g) <==> Taken(words, g) || g == f
  {
    if f / 32 == g / 32 {
      OrBit(words[f / 32], Mask(f), 32, g % 32);
      MaskBit(f % 32, g % 32);
    }
  }

  lemma ClearFrees(words: seq<word>, f: frame, g: frame)
    requires |words| == WORDS
    ensures Taken(ClearIn(words, f), g) <==> Taken(words, g) && g != f
  {
    if f / 32 == g / 32 {
      AndBit(words[f / 32], Not(Mask(f), 32), 32, g % 32);
      NotBit(Mask(f), 32, g % 32);
      MaskBit(f % 32, g % 32);
    }
  }

  lemma SetAdds(words: seq<word>, f: frame)
    requires |words| == WORDS
    ensures TakenFrames(SetIn(words, f)) == TakenFrames(words) + {f}
  {
    forall g: frame
      ensures Taken(SetIn(words, f), g) <==> Taken(words, g) || g == f
    {
      SetTakes(words, f, g);
    }
  }

  lemma ClearRemoves(words: seq<word>, f: frame)
    requires |words| == WORDS
    ensures TakenFrames(ClearIn(words, f)) == TakenFrames(words) - {f}
  {
    forall g: frame
      ensures Taken(ClearIn(words, f), g) <==> Taken(words, g) && g != f
    {
      ClearFrees(words, f, g);
    }
  }

  // ----- the allocator as a set of frames

  /** The lowest frame from f on that is not taken, FRAMES if there is none. */
  function LowestFree(taken: set<frame>, f: nat): (r: nat)
    requires f <= FRAMES
    ensures f <= r <= FRAMES && (r < FRAMES ==> r !in taken) && forall g: frame :: f <= g < r ==> g in taken
    decreases FRAMES - f
  {
    if f == FRAMES || f !in taken then f else LowestFree(taken, f + 1)
  }

  predicate IsBelow(f: frame, n: int) {
    f < n
  }

  function FramesBelow(n: int): set<frame> {
    set f: frame | 0 <= f < FRAMES && IsBelow(f, n)
  }

  /** The frames that the kernel itself occupies. */
  function Reserved(): set<frame> {
    FramesBelow(RESERVED)
  }

  datatype Operation = Alloc | Free(frame: frame)

  /** The outstanding frames after an operation; a caller frees only frames that are outstanding. */
  ghost function After(outstanding: set<frame>, op: Operation): set<frame> {
    match op
    case Alloc =>
      var f := LowestFree(Reserved() + outstanding, 0);
      if f == FRAMES then outstanding else outstanding + {f}
    case Free(f) => outstanding - {f}
  }

  ghost predicate Disciplined(outstanding: set<frame>, ops: seq<Operation>)
    decreases |ops|
  {
    ops == [] || ((ops[0].Free? ==> ops[0].frame in outstanding) && Disciplined(After(outstanding, ops[0]), ops[1..]))
  }

  ghost function Outstanding(outstanding: set<frame>, ops: seq<Operation>): set<frame>
    decreases |ops|
  {
    if ops == [] then outstanding else Outstanding(After(outstanding, ops[0]), ops[1..])
  }

  /** A frame that is freed is the next one to be handed out, if no lower one is free. */
  lemma FreedIsReused(outstanding: set<frame>, f: frame)
    requires outstanding !! Reserved() && f in outstanding
    requires forall g: frame :: g < f ==> g < 256 || g in outstanding
    ensures f !in After(outstanding, Free(f))
    ensures After(After(outstanding, Free(f)), Alloc) == outstanding
  {
    var taken := Reserved() + After(outstanding, Free(f));
    assert forall g: frame :: g < f ==> g in taken;
    assert LowestFree(taken, 0) == f;
  }

  /** In every disciplined run the outstanding frames stay apart from the reserved ones. */
  lemma {:induction false} NeverReserved(outstanding: set<frame>, ops: seq<Operation>)
    requires outstanding !! Reserved() && Disciplined(outstanding, ops)
    ensures Outstanding(outstanding, ops) !! Reserved()
    decreases |ops|
  {
    if ops != [] {
      NeverReserved(After(outstanding, ops[0]), ops[1..]);
    }
  }

  /** What an operation of the allocator does to the set of taken frames. */
  ghost function TakenAfter(taken: set<frame>, op: Operation): set<frame> {
    match op
    case Alloc => if LowestFree(taken, 0) == FRAMES then taken else taken + {LowestFree(taken, 0)}
    case Free(f) => taken - {f}
  }

  ghost function TakenRun(taken: set<frame>, ops: seq<Operation>): set<frame>
    decreases |ops|
  {
    if ops == [] then taken else TakenRun(TakenAfter(taken, ops[0]), ops[1..])
  }

  /** In every disciplined run the bitmap stands for exactly the reserved and the outstanding frames. */
  lemma {:induction false} BitmapIsReservedAndOutstanding(outstanding: set<frame>, ops: seq<Operation>)
    requires outstanding !! Reserved() && Disciplined(outstanding, ops)
    ensures TakenRun(Reserved() + outstanding, ops) == Reserved() + Outstanding(outstanding, ops)
    decreases |ops|
  {
    if ops != [] {
      assert TakenAfter(Reserved() + outstanding, ops[0]) == Reserved() + After(outstanding, ops[0]);
      BitmapIsReservedAndOutstanding(After(outstanding, ops[0]), ops[1..]);
    }
  }

  function Address(f: frame): nat {
    f * FRAME_SIZE
  }

  /** The first frame that is handed out is the one at 1 MiB, the last one ends at 16 MiB. */
  lemma FirstAndLast(taken: set<frame>)
    ensures LowestFree(Reserved(), 0) < FRAMES && Address(LowestFree(Reserved(), 0)) == 0x10_0000
    ensures (forall f: frame :: f in taken <==> Address(f) != 0xFF_F000) ==>
      LowestFree(taken, 0) < FRAMES && Address(LowestFree(taken, 0)) == 0xFF_F000
  {
    var f := LowestFree(Reserved(), 0);
    assert 256 !in Reserved();
    assert f < FRAMES ==> f in Reserved() || f >= RESERVED;
    var g: frame := 4095;
    assert Address(g) == 0xFF_F000;
  }

  /** Frames of a disciplined run are aligned, between 1 and 16 MiB, and do not overlap. */
  lemma FramesAreDisjoint(outstanding: set<frame>, f: frame, g: frame)
    requires outstanding !! Reserved() && f in outstanding && g in outstanding
    ensures Address(f) % 4096 == 0 && 0x10_0000 <= Address(f) && Address(f) + 4096 <= 0x100_0000
    ensures f != g ==> Address(f) + 4096 <= Address(g) || Address(g) + 4096 <= Address(f)
  {
  }

  // ----- the code

  class Allocator {
    const memoryBitmap: array<word>

    constructor ()
      ensures memoryBitmap.Length == WORDS && fresh(memoryBitmap)
    {
      memoryBitmap := new word[WORDS];
    }

    method InitPmm()
      requires memoryBitmap.Length == WORDS
      modifies memoryBitmap
      ensures TakenSet() == Reserved() && forall f: frame :: f in TakenSet() <==> f < 256
    {
      for i := 0 to WORDS
        invariant forall j :: 0 <= j < i ==> memoryBitmap[j] == 0
      {
        memoryBitmap[i] := 0;
      }
      forall f: frame
        ensures !Taken(memoryBitmap[..], f)
      {
        ZeroBit(f % 32);
      }
      assert TakenSet() == FramesBelow(0);
      for i := 0 to RESERVED
        invariant TakenSet() == FramesBelow(i)
      {
        SetBit(i);
      }
    }

    function TakenSet(): set<frame>
      requires memoryBitmap.Length == WORDS
      reads memoryBitmap
    {
      TakenFrames(memoryBitmap[..])
    }

    method SetBit(f: frame)
      requires memoryBitmap.Length == WORDS
      modifies memoryBitmap
      ensures TakenSet() == old(TakenSet()) + {f}
    {
      Width32(memoryBitmap[f / 32], Mask(f));
      SetAdds(memoryBitmap[..], f);
      ghost var before := memoryBitmap[..];
      memoryBitmap[f / 32] := Or(memoryBitmap[f / 32], Mask(f), 32);
      assert memoryBitmap[..] == SetIn(before, f);
    }

    method ClearBit(f: frame)
      requires memoryBitmap.Length == WORDS
      modifies memoryBitmap
      ensures TakenSet() == old(TakenSet()) - {f}
    {
      Width32(memoryBitmap[f / 32], Not(Mask(f), 32));
      ClearRemoves(memoryBitmap[..], f);
      ghost var before := memoryBitmap[..];
      memoryBitmap[f / 32] := And(memoryBitmap[f / 32], Not(Mask(f), 32), 32);
      assert memoryBitmap[..] == ClearIn(before, f);
    }

    method TestBit(f: frame) returns (r: word)
      requires memoryBitmap.Length == WORDS
      ensures r != 0 <==> f in TakenSet()
    {
      AndMask(memoryBitmap[f / 32], f % 32, 32);
      Width32(memoryBitmap[f / 32], Mask(f));
      r := And(memoryBitmap[f / 32], Mask(f), 32);
    }

    /** The address of the lowest free frame, which becomes taken; 0 exactly if all frames are taken, as long
        as frame 0 is. */
    method AllocFrame() returns (address: nat)
      requires memoryBitmap.Length == WORDS
      modifies memoryBitmap
      ensures TakenSet() == TakenAfter(old(TakenSet()), Alloc)
      ensures var f := LowestFree(old(TakenSet()), 0); address == if f == FRAMES then 0 else Address(f)
      ensures forall f: frame :: LowestFree(old(TakenSet()), 0) == f ==>
        address == 4096 * f && TakenSet() == old(TakenSet()) + {f}
      ensures 0 in old(TakenSet()) ==> (address == 0 <==> forall f: frame :: f in old(TakenSet()))
    {
      for bit := 0 to FRAMES
        invariant TakenSet() == old(TakenSet()) && LowestFree(old(TakenSet()), 0) == LowestFree(old(TakenSet()), bit)
      {
        var test := TestBit(bit);
        if test == 0 {
          SetBit(bit);
          return bit * FRAME_SIZE;
        }
      }
      return 0;
    }

    /** The address must lie below 16 MiB. */
    method FreeFrame(address: nat)
      requires memoryBitmap.Length == WORDS && address < 0x100_0000
      modifies memoryBitmap
      ensures TakenSet() == TakenAfter(old(TakenSet()), Free(address / 4096)) == old(TakenSet()) - {address / 4096}
    {
      ClearBit(address / FRAME_SIZE);
    }
  }
}
