/** The frame allocator: one flag per 4 KB frame of the PFN arena. */
module Pfn {
  const FRAME_SIZE := 0x1000
  const BASE := 0x600_0000
  const TOP := 0x1000_0000
  const FRAME_COUNT: nat := 0xA000   // (TOP - BASE) / FRAME_SIZE

  predicate InArena(frame: int) {
    BASE <= frame < TOP && frame % FRAME_SIZE == 0
  }

  function AddressOf(index: nat): (frame: int)
    ensures index < FRAME_COUNT ==> InArena(frame) && IndexOf(frame) == index
  {
    BASE + index * FRAME_SIZE
  }

  function IndexOf(frame: int): int { (frame - BASE) / FRAME_SIZE }

  lemma IndexInRange(frame: int)
    ensures InArena(frame) ==> 0 <= IndexOf(frame) < FRAME_COUNT && AddressOf(IndexOf(frame)) == frame
  {
  }

  function CountFree(bits: seq<bool>): (n: nat)
    ensures n <= |bits|
  {
    if bits == [] then 0
    else CountFree(bits[..|bits| - 1]) + (if bits[|bits| - 1] then 0 else 1)
  }

  /** Taking a free frame lowers the free count by one, giving it back restores it. */
  lemma {:induction false} CountAfterUpdate(bits: seq<bool>, i: nat, used: bool)
    requires i < |bits|
    ensures CountFree(bits[i := used]) ==
              CountFree(bits) + (if bits[i] then 1 else 0) - (if used then 1 else 0)
  {
    var n := |bits| - 1;
    if i < n {
      CountAfterUpdate(bits[..n], i, used);
      assert bits[i := used][..n] == bits[..n][i := used];
    } else {
      assert bits[i := used][..n] == bits[..n];
    }
  }

  lemma {:induction false} NoneFree(bits: seq<bool>)
    requires forall i :: 0 <= i < |bits| ==> bits[i]
    ensures CountFree(bits) == 0
  {
    if bits != [] {
      NoneFree(bits[..|bits| - 1]);
    }
  }

  class FrameBitmap {
    const bitmap: array<bool>

    ghost predicate Valid()
      reads this
    {
      bitmap.Length == FRAME_COUNT
    }

    /** `frame` is an arena frame and has been handed out. */
    ghost predicate IsUsed(frame: int)
      requires Valid()
      reads this, bitmap
    {
      IndexInRange(frame);
      InArena(frame) && bitmap[IndexOf(frame)]
    }

    /** The frames that have been handed out. */
    ghost function Used(): (used: set<int>)
      requires Valid()
      reads this, bitmap
      ensures forall f :: f in used <==> IsUsed(f)
    {
      set f | BASE <= f < TOP && IsUsed(f)
    }

    ghost function FreeFrames(): nat
      reads this, bitmap
    {
      CountFree(bitmap[..])
    }

    ghost predicate Exhausted()
      requires Valid()
      reads this, bitmap
    {
      forall frame :: InArena(frame) ==> frame in Used()
    }

    constructor ()
      ensures Valid() && fresh(bitmap)
      ensures Used() == {}
      ensures FreeFrames() == FRAME_COUNT
    {
      bitmap := new bool[FRAME_COUNT](_ => false);
      new;
      AllFree(bitmap[..]);
    }

    /** First fit: the lowest free frame, or 0 exactly when there is none. */
    method AllocPage() returns (frame: int)
      requires Valid()
      modifies bitmap
      ensures frame == 0 <==> old(Exhausted())
      ensures frame == 0 ==> bitmap[..] == old(bitmap[..])
      ensures frame != 0 ==> InArena(frame) && frame !in old(Used())
      ensures frame != 0 ==> forall lower :: InArena(lower) && lower < frame ==> lower in old(Used())
      ensures Used() == old(Used()) + (if frame == 0 then {} else {frame})
      ensures frame == 0 <==> old(FreeFrames()) == 0
      ensures FreeFrames() == old(FreeFrames()) - (if frame == 0 then 0 else 1)
    {
      for i := 0 to FRAME_COUNT
        invariant bitmap[..] == old(bitmap[..])
        invariant forall j :: 0 <= j < i ==> bitmap[j]
      {
        if !bitmap[i] {
          ghost var before := bitmap[..];
          bitmap[i] := true;
          frame := AddressOf(i);
          assert !old(IsUsed(frame));
          CountAfterUpdate(before, i, true);
          assert bitmap[..] == before[i := true];
          forall f ensures IsUsed(f) <==> old(IsUsed(f)) || f == frame {
            IndexInRange(f);
          }
          forall lower | InArena(lower) && lower < frame ensures old(IsUsed(lower)) {
            IndexInRange(lower);
          }
          return;
        }
      }
      forall f | InArena(f) ensures old(IsUsed(f)) {
        IndexInRange(f);
      }
      NoneFree(bitmap[..]);
      frame := 0;
    }

    /** Only addresses of arena frames are accepted; freeing a free frame is a no-op. */
    method FreePage(address: int) returns (ok: bool)
      requires Valid()
      modifies bitmap
      ensures ok <==> InArena(address)
      ensures Used() == old(Used()) - {address}
      ensures FreeFrames() == old(FreeFrames()) + (if address in old(Used()) then 1 else 0)
    {
      IndexInRange(address);
      if address < BASE || address >= TOP || address % FRAME_SIZE != 0 {
        return false;
      }
      var i := IndexOf(address);
      ghost var before := bitmap[..];
      bitmap[i] := false;
      CountAfterUpdate(before, i, false);
      assert bitmap[..] == before[i := false];
      forall f ensures IsUsed(f) <==> old(IsUsed(f)) && f != address {
        IndexInRange(f);
      }
      ok := true;
    }

    method FreeCount() returns (n: nat)
      requires Valid()
      ensures n == FreeFrames()
    {
      n := 0;
      for i := 0 to FRAME_COUNT
        invariant n == CountFree(bitmap[..i])
      {
        assert bitmap[..i + 1][..i] == bitmap[..i];
        if !bitmap[i] {
          n := n + 1;
        }
      }
      assert bitmap[..FRAME_COUNT] == bitmap[..];
    }
  }

  lemma {:induction false} AllFree(bits: seq<bool>)
    requires forall i :: 0 <= i < |bits| ==> !bits[i]
    ensures CountFree(bits) == |bits|
  {
    if bits != [] {
      AllFree(bits[..|bits| - 1]);
    }
  }
}
