/** The kernel heap: a block list over the RAM from HEAP_START to the detected top, first
    fit with splitting, and forward coalescing on free. */
module Kmalloc {
  import opened BlockList
  import Pfn

  const HEAP_START: nat := 0x200_0000
  const HDR_SIZE: nat := 32
  const MIN_SPLIT: nat := 16
  const RAM_CAP: nat := 0x1_0000_0000
  const TWO64 := 0x1_0000_0000_0000_0000

  type Memory = map<nat, Header>

  function HeaderAt(mem: Memory): nat -> Header {
    a => if a in mem then mem[a] else Header(0, 0, false)
  }

  function Data(b: Block): nat { b.addr + HDR_SIZE }

  /** The blocks cover the heap exactly, without a gap, on 16-byte boundaries. */
  ghost predicate Tiles(blocks: seq<Block>, top: nat) {
    Segment(HDR_SIZE, blocks, HEAP_START, top) && NoGaps(blocks) && OnBoundaries(blocks)
  }

  /** `(size + 15) & ~15` on 64-bit unsigned numbers. */
  function RoundUp(size: nat): nat {
    var s := (size + 15) % TWO64;
    s - s % 16
  }

  /** The rounded size covers the request exactly when the addition does not wrap. */
  lemma RoundUpCovers(size: nat)
    requires size < TWO64
    ensures RoundUp(size) % 16 == 0
    ensures RoundUp(size) >= size <==> size <= TWO64 - 16
    ensures size <= TWO64 - 16 ==> RoundUp(size) < size + 16
  {
  }

  predicate Suits(b: Block, size: nat) { b.free && b.size >= size }

  // ---- what kmalloc and kfree do to the list ---------------------------------

  /** The blocks that take the place of `b` when `size` bytes of it are taken. */
  function Taken(b: Block, size: nat): (s: seq<Block>)
    requires b.size >= size
    ensures s != []
  {
    if b.size >= size + HDR_SIZE + MIN_SPLIT then
      [Block(b.addr, size, false, 0), Block(b.addr + HDR_SIZE + size, b.size - size - HDR_SIZE, true, 0)]
    else [b.(free := false)]
  }

  /** A piece has the bytes wanted and less than 48 more; what is left over is free. */
  lemma TakenSize(b: Block, size: nat)
    requires Suits(b, size)
    ensures var s := Taken(b, size);
            && s[0].addr == b.addr && !s[0].free && size <= s[0].size < size + 48
            && (|s| == 1 ==> s[0].size == b.size < size + 48)
            && (|s| != 1 ==> |s| == 2 && s[0].size == size && s[1].free && s[1].addr == b.addr + 32 + size
                             && s[1].size == b.size - size - 32 >= 16)
  {
  }

  /** For a request that does not wrap around, a live block is less than 63 bytes larger. */
  lemma LittleIsWasted(b: Block, size: nat)
    requires size <= TWO64 - 16 && Suits(b, RoundUp(size))
    ensures size <= Taken(b, RoundUp(size))[0].size < size + 63
  {
    TakenSize(b, RoundUp(size));
  }

  function Take(blocks: seq<Block>, i: nat, size: nat): seq<Block>
    requires i < |blocks| && blocks[i].size >= size
  {
    Exchanged(blocks, i, 1, Taken(blocks[i], size))
  }

  /** How many blocks a release of block `i` joins: the next one too, if it is free. */
  function Joined(blocks: seq<Block>, i: nat): (n: nat)
    requires i < |blocks|
    ensures i + n <= |blocks|
  {
    if i + 1 < |blocks| && blocks[i + 1].free then 2 else 1
  }

  function Released(blocks: seq<Block>, i: nat): Block
    requires i < |blocks|
  {
    var b := blocks[i];
    if Joined(blocks, i) == 2 then Block(b.addr, b.size + HDR_SIZE + blocks[i + 1].size, true, 0)
    else b.(free := true)
  }

  function Release(blocks: seq<Block>, i: nat): seq<Block>
    requires i < |blocks|
  {
    Exchanged(blocks, i, Joined(blocks, i), [Released(blocks, i)])
  }

  /** A released block is free, and larger by the next one and its header if that is free;
      all others stay. */
  lemma ReleaseMeans(blocks: seq<Block>, i: nat)
    requires i < |blocks|
    ensures var after, b := Release(blocks, i), blocks[i];
            && i < |after| && after[i].free && after[i].addr == b.addr && after[..i] == blocks[..i]
            && (if i + 1 < |blocks| && blocks[i + 1].free then
                  after[i].size == b.size + 32 + blocks[i + 1].size && after[i + 1..] == blocks[i + 2..]
                else after[i].size == b.size && after[i + 1..] == blocks[i + 1..])
  {
  }

  /** An allocation exchanges one block and leaves the others. */
  lemma TakeMeans(blocks: seq<Block>, i: nat, size: nat)
    requires i < |blocks| && Suits(blocks[i], size)
    ensures var after, n := Take(blocks, i, size), |Taken(blocks[i], size)|;
            && |after| == |blocks| + n - 1 && after[..i] == blocks[..i]
            && after[i..i + n] == Taken(blocks[i], size) && after[i + n..] == blocks[i + 1..]
  {
  }

  lemma TakenIsRegular(blocks: seq<Block>, i: nat, size: nat)
    requires NoGaps(blocks) && OnBoundaries(blocks) && i < |blocks| && blocks[i].size >= size && size % 16 == 0
    ensures NoGaps(Taken(blocks[i], size)) && OnBoundaries(Taken(blocks[i], size)) && blocks[i].gap == 0
  {
  }

  lemma TakeKeepsTiles(blocks: seq<Block>, top: nat, i: nat, size: nat)
    requires Tiles(blocks, top) && i < |blocks| && Suits(blocks[i], size) && size % 16 == 0
    ensures Tiles(Take(blocks, i, size), top) && Take(blocks, i, size) != []
    ensures UsedBytes(Take(blocks, i, size)) == UsedBytes(blocks) + Taken(blocks[i], size)[0].size
  {
    hide Segment, UsedBytes, GapBytes, Exchanged, EndOf, NoGaps, OnBoundaries;
    var b, mid := blocks[i], Taken(blocks[i], size);
    assert blocks[i..i + 1] == [b];
    TakenIsRegular(blocks, i, size);
    InSegment(HDR_SIZE, blocks, HEAP_START, top, i);
    OneBlock(HDR_SIZE, b);
    OneBlock(HDR_SIZE, mid[0]);
    if |mid| == 2 {
      OneBlock(HDR_SIZE, mid[1]);
      TwoBlocks(HDR_SIZE, mid[0], mid[1]);
    }
    ExchangeKeepsSegment(HDR_SIZE, blocks, HEAP_START, top, i, 1, mid);
    ExchangeKeepsNoGaps(blocks, i, 1, mid);
    ExchangeKeepsBoundaries(blocks, i, 1, mid);
    ExchangeCounts(blocks, i, 1, mid);
  }

  lemma ReleaseKeepsTiles(blocks: seq<Block>, top: nat, i: nat)
    requires Tiles(blocks, top) && i < |blocks| && !blocks[i].free
    ensures Tiles(Release(blocks, i), top) && Release(blocks, i) != []
    ensures UsedBytes(Release(blocks, i)) == UsedBytes(blocks) - blocks[i].size
  {
    hide Segment, UsedBytes, GapBytes, Exchanged, EndOf;
    var b, x, n := blocks[i], Released(blocks, i), Joined(blocks, i);
    InSegment(HDR_SIZE, blocks, HEAP_START, top, i);
    assert NoGaps([x]) && OnBoundaries([x]) && b.gap == 0;
    hide NoGaps, OnBoundaries;
    OneBlock(HDR_SIZE, b);
    OneBlock(HDR_SIZE, x);
    if n == 2 {
      assert blocks[i..i + n] == [b, blocks[i + 1]];
      InSegment(HDR_SIZE, blocks, HEAP_START, top, i + 1);
      OneBlock(HDR_SIZE, blocks[i + 1]);
      TwoBlocks(HDR_SIZE, b, blocks[i + 1]);
    } else {
      assert blocks[i..i + n] == [b];
    }
    ExchangeKeepsSegment(HDR_SIZE, blocks, HEAP_START, top, i, n, [x]);
    ExchangeKeepsNoGaps(blocks, i, n, [x]);
    ExchangeKeepsBoundaries(blocks, i, n, [x]);
    ExchangeCounts(blocks, i, n, [x]);
  }

  /** In a tiled heap two data areas never overlap, and the heap is used up exactly by
      used bytes, free bytes and headers. */
  lemma TilesMeans(blocks: seq<Block>, top: nat, i: nat, j: nat)
    requires Tiles(blocks, top) && i < j < |blocks|
    ensures Data(blocks[i]) + blocks[i].size + HDR_SIZE <= Data(blocks[j])
    ensures HEAP_START + HDR_SIZE <= Data(blocks[i]) && Data(blocks[j]) + blocks[j].size <= top
    ensures UsedBytes(blocks) + FreeBytes(blocks) + HDR_SIZE * |blocks| == top - HEAP_START
  {
    AddressOrder(HDR_SIZE, blocks, HEAP_START, top, i, j);
    Accounting(HDR_SIZE, blocks, HEAP_START, top);
    NoGapBytes(blocks);
  }

  // ---- the heap and the frame arena ------------------------------------------

  /** Some byte of the data lies where the frame allocator takes its frames from. */
  predicate OverFrames(b: Block) { Data(b) < Pfn.TOP && Pfn.BASE < End(HDR_SIZE, b) }

  /** The heap that kmalloc_init makes of the RAM up to `top`. */
  function FreshBlock(top: nat): Block
    requires top >= HEAP_START + HDR_SIZE
  {
    Block(HEAP_START, top - HEAP_START - HDR_SIZE, true, 0)
  }

  /** The memory layout ends the heap where the frame arena begins, but the heap ends at
      the top of the RAM. With any more RAM than that some request is handed out bytes of
      the arena, and only then. */
  lemma HeapMeetsFrameArena(top: nat)
    requires HEAP_START + HDR_SIZE <= top <= RAM_CAP
    ensures var b := FreshBlock(top);
            (exists size: nat :: size < TWO64 && Suits(b, RoundUp(size)) && OverFrames(Taken(b, RoundUp(size))[0]))
            <==> top > Pfn.BASE
  {
    hide RoundUp, Taken;
    var b := FreshBlock(top);
    forall size: nat | size < TWO64 && Suits(b, RoundUp(size))
      ensures End(HDR_SIZE, Taken(b, RoundUp(size))[0]) <= top
    {
      TakenInside(b, RoundUp(size));
    }
    if top > Pfn.BASE {
      var size := b.size - b.size % 16;
      WholeBlock(b, size);
      assert OverFrames(Taken(b, RoundUp(size))[0]);
    }
  }

  lemma TakenInside(b: Block, size: nat)
    requires b.size >= size
    ensures Taken(b, size)[0].addr == b.addr && End(HDR_SIZE, Taken(b, size)[0]) <= End(HDR_SIZE, b)
  {
  }

  /** The largest multiple of 16 that a block has room for takes all of it. */
  lemma WholeBlock(b: Block, size: nat)
    requires size == b.size - b.size % 16 && size < TWO64 - 15
    ensures RoundUp(size) == size && Taken(b, size) == [b.(free := false)]
  {
  }

  /** Without more RAM no block that is ever handed out reaches the arena. */
  lemma NoBlockOverFrames(blocks: seq<Block>, top: nat)
    requires Tiles(blocks, top) && top <= Pfn.BASE
    ensures forall b :: b in Live(blocks) ==> !OverFrames(b)
  {
    forall b | b in Live(blocks) ensures !OverFrames(b) {
      var i :| 0 <= i < |blocks| && blocks[i] == b;
      InSegment(HDR_SIZE, blocks, HEAP_START, top, i);
    }
  }

  /** With 256 MB, one request for 64 MB on a fresh heap is given bytes of the arena. */
  lemma SixtyFourMegabytesReachFrames()
    ensures var b := FreshBlock(Pfn.TOP);
            Suits(b, RoundUp(0x400_0000)) && OverFrames(Taken(b, RoundUp(0x400_0000))[0])
  {
  }

  /** A byte of the data of one block is no byte of the header of any: what clients store
      leaves all headers alone. */
  lemma DataMissesHeaders(blocks: seq<Block>, top: nat, i: nat, j: nat, a: nat)
    requires Tiles(blocks, top) && i < |blocks| && j < |blocks|
    requires Data(blocks[i]) <= a < End(HDR_SIZE, blocks[i])
    ensures a < blocks[j].addr || a >= blocks[j].addr + HDR_SIZE
  {
    if i != j {
      BlocksApart(HDR_SIZE, blocks, HEAP_START, top, i, j);
    }
  }

  // ---- live blocks -----------------------------------------------------------

  /** Taking a block makes exactly one block live and leaves the others where they are. */
  lemma TakeMakesLive(blocks: seq<Block>, top: nat, i: nat, size: nat)
    requires Tiles(blocks, top) && i < |blocks| && Suits(blocks[i], size)
    ensures Live(Take(blocks, i, size)) == Live(blocks) + {Taken(blocks[i], size)[0]}
    ensures Taken(blocks[i], size)[0].size >= size
  {
    AddressesDiffer(HDR_SIZE, blocks, HEAP_START, top);
    LiveAfterReplace(blocks, i, 1, Taken(blocks[i], size));
    assert blocks[i..i + 1] == [blocks[i]];
  }

  /** Releasing a live block makes it, and nothing else, not live. */
  lemma ReleaseEndsLive(blocks: seq<Block>, top: nat, i: nat)
    requires Tiles(blocks, top) && i < |blocks| && !blocks[i].free
    ensures Live(Release(blocks, i)) == Live(blocks) - {blocks[i]}
  {
    AddressesDiffer(HDR_SIZE, blocks, HEAP_START, top);
    var taken := Joined(blocks, i);
    LiveAfterReplace(blocks, i, taken, [Released(blocks, i)]);
    assert blocks[i..i + taken] == if taken == 2 then [blocks[i], blocks[i + 1]] else [blocks[i]];
  }

  /** The header kfree ends up with: because the heap is tiled, its test for contiguity
      never fails, and it joins exactly when the next block is free. */
  lemma FreedHeader(blocks: seq<Block>, top: nat, i: nat, h: Header, n: Header)
    requires Tiles(blocks, top) && i < |blocks|
    requires h == Header(blocks[i].size, NextAddr(blocks, i), true)
    requires i + 1 < |blocks| ==> n == Header(blocks[i + 1].size, NextAddr(blocks, i + 1), blocks[i + 1].free)
    ensures (if h.next != 0 && n.free && blocks[i].addr + HDR_SIZE + h.size == h.next
             then Header(h.size + HDR_SIZE + n.size, n.next, true) else h)
            == Header(Released(blocks, i).size, NextAddr(blocks, i + Joined(blocks, i) - 1), true)
    ensures i + 1 < |blocks| ==> h.next != 0 && blocks[i].addr + HDR_SIZE + h.size == h.next
    ensures Released(blocks, i).addr == blocks[i].addr
  {
    InSegment(HDR_SIZE, blocks, HEAP_START, top, i);
    hide Segment;
  }

  /** The two headers that kfree reads, and what it makes of them. */
  lemma ReleaseReads(mem: Memory, blocks: seq<Block>, top: nat, i: nat)
    requires Tiles(blocks, top) && Represents(HeaderAt(mem), blocks) && i < |blocks|
    ensures var b, h0 := blocks[i].addr, HeaderAt(mem)(blocks[i].addr);
            var h, n := h0.(free := true), HeaderAt(mem)(h0.next);
            && h0.size == blocks[i].size && Released(blocks, i).addr == b
            && (if h.next != 0 && n.free && b + HDR_SIZE + h.size == h.next
                then Header(h.size + HDR_SIZE + n.size, n.next, true) else h)
               == Header(Released(blocks, i).size, NextAddr(blocks, i + Joined(blocks, i) - 1), true)
  {
    hide Tiles, Represents, HeaderAt, Released, Joined;
    RepresentedAt(HeaderAt(mem), blocks, i);
    if i + 1 < |blocks| {
      RepresentedAt(HeaderAt(mem), blocks, i + 1);
    }
    var h := HeaderAt(mem)(blocks[i].addr).(free := true);
    var n := HeaderAt(mem)(h.next);
    assert i + 1 < |blocks| ==> n == Header(blocks[i + 1].size, NextAddr(blocks, i + 1), blocks[i + 1].free);
    hide NextAddr;
    FreedHeader(blocks, top, i, h, n);
  }

  /** A release keeps headers, tiling and the count of used bytes together. */
  lemma KfreeKeeps(mem: Memory, blocks: seq<Block>, top: nat, i: nat)
    requires Tiles(blocks, top) && Represents(HeaderAt(mem), blocks) && i < |blocks| && !blocks[i].free
    ensures Tiles(Release(blocks, i), top) && Release(blocks, i) != []
    ensures HeaderAt(mem)(blocks[i].addr).size == blocks[i].size <= UsedBytes(blocks)
    ensures UsedBytes(Release(blocks, i)) == UsedBytes(blocks) - blocks[i].size
    ensures var b, h0 := blocks[i].addr, HeaderAt(mem)(blocks[i].addr);
            var h, n := h0.(free := true), HeaderAt(mem)(h0.next);
            var left := if h.next != 0 && n.free && b + HDR_SIZE + h.size == h.next
                        then Header(h.size + HDR_SIZE + n.size, n.next, true) else h;
            Represents(HeaderAt(mem[b := left]), Release(blocks, i))
  {
    hide Tiles, Represents, Release, HeaderAt, UsedBytes, NextAddr, Released, Joined;
    ReleaseKeepsTiles(blocks, top, i);
    ReleasedStores(mem, blocks, top, i);
    UsedAtLeast(blocks, i);
    ReleaseReads(mem, blocks, top, i);
  }

  class Heap {
    const ramTop: nat
    var mem: Memory
    var freeList: nat
    var heapTotal: nat
    var heapUsed: nat
    ghost var blocks: seq<Block>

    ghost predicate Valid()
      reads this
    {
      && Tiles(blocks, ramTop) && Represents(HeaderAt(mem), blocks)
      && blocks != [] && freeList == HEAP_START
      && ramTop == HEAP_START + HDR_SIZE + heapTotal
      && heapUsed == UsedBytes(blocks)
    }

    /** One free block up to the top of the RAM; its size is an unsigned difference, so
        this is a heap exactly if the RAM reaches beyond the first header. */
    constructor (ramTop: nat)
      requires 0 < ramTop <= RAM_CAP
      ensures Valid() <==> HEAP_START + HDR_SIZE <= ramTop
      ensures this.ramTop == ramTop && heapUsed == 0
      ensures heapTotal == (ramTop - HEAP_START - HDR_SIZE) % TWO64
      ensures blocks == [Block(HEAP_START, heapTotal, true, 0)]
    {
      var size := (ramTop - HEAP_START - HDR_SIZE) % TWO64;
      this.ramTop := ramTop;
      freeList := HEAP_START;
      mem := map[HEAP_START := Header(size, 0, true)];
      heapTotal := size;
      heapUsed := 0;
      blocks := [Block(HEAP_START, size, true, 0)];
      new;
      OneBlock(HDR_SIZE, blocks[0]);
    }

    /** The walk of kmalloc: the first free block that is large enough, 0 without one. */
    method FindFit(want: nat) returns (b: nat, ghost i: nat)
      requires Valid()
      ensures i <= |blocks| && b == (if i < |blocks| then blocks[i].addr else 0)
      ensures i < |blocks| ==> b != 0 && Suits(blocks[i], want)
      ensures forall j :: 0 <= j < i ==> !Suits(blocks[j], want)
    {
      hide HeaderAt, Represents;
      b := freeList;
      i := 0;
      InSegment(HDR_SIZE, blocks, HEAP_START, ramTop, 0);
      hide Segment;
      while b != 0 && !(HeaderAt(mem)(b).free && HeaderAt(mem)(b).size >= want)
        invariant i <= |blocks| && b == (if i < |blocks| then blocks[i].addr else 0)
        invariant forall j :: 0 <= j < i ==> !Suits(blocks[j], want)
        decreases |blocks| - i
      {
        RepresentedAt(HeaderAt(mem), blocks, i);
        if i + 1 < |blocks| {
          InSegment(HDR_SIZE, blocks, HEAP_START, ramTop, i + 1);
        }
        b := HeaderAt(mem)(b).next;
        i := i + 1;
      }
      if i < |blocks| {
        InSegment(HDR_SIZE, blocks, HEAP_START, ramTop, i);
        RepresentedAt(HeaderAt(mem), blocks, i);
      }
    }

    /** First fit, split if a header and 16 bytes are left over. */
    method Malloc(size: nat) returns (ptr: nat, ghost i: nat)
      requires Valid() && size < TWO64
      modifies this
      ensures Valid()
      ensures forall j :: 0 <= j < i <= |old(blocks)| ==> !Suits(old(blocks)[j], RoundUp(size))
      ensures ptr == 0 <==> i == |old(blocks)|
      ensures ptr == 0 ==> blocks == old(blocks) && forall b :: b in blocks && b.free ==> b.size < RoundUp(size)
      ensures ptr != 0 ==> i < |old(blocks)| && Suits(old(blocks)[i], RoundUp(size))
      ensures ptr != 0 ==> blocks == Take(old(blocks), i, RoundUp(size)) && ptr == Data(old(blocks)[i]) && ptr % 16 == 0
    {
      hide HeaderAt, Represents, Tiles, Take;
      RoundUpCovers(size);
      var b;
      b, i := FindFit(RoundUp(size));
      if b == 0 {
        return 0, i;
      }
      ptr := TakeBlock(b, RoundUp(size), i);
    }

    /** The stores of kmalloc once it has found the block with header `b`. */
    method TakeBlock(b: nat, want: nat, ghost i: nat) returns (ptr: nat)
      requires Valid() && i < |blocks| && Suits(blocks[i], want) && want % 16 == 0 && b == blocks[i].addr
      modifies this
      ensures Valid() && blocks == Take(old(blocks), i, want)
      ensures ptr == Data(old(blocks)[i]) && ptr != 0 && ptr % 16 == 0
    {
      hide Segment, Represents, Take, HeaderAt;
      TakeKeepsTiles(blocks, ramTop, i, want);
      TakenStores(mem, blocks, ramTop, i, want);
      InSegment(HDR_SIZE, blocks, HEAP_START, ramTop, i);
      RepresentedAt(HeaderAt(mem), blocks, i);
      hide Tiles;
      var h := HeaderAt(mem)(b);
      if h.size >= want + HDR_SIZE + MIN_SPLIT {
        var nb := b + HDR_SIZE + want;
        mem := mem[nb := Header(h.size - want - HDR_SIZE, h.next, true)];
        h := Header(want, nb, true);
      }
      mem := mem[b := h.(free := false)];
      heapUsed := heapUsed + h.size;
      blocks := Take(blocks, i, want);
      ptr := b + HDR_SIZE;
    }

    /** Releases the block whose data starts at `ptr`; nothing happens for 0. */
    method Kfree(ptr: nat, ghost i: nat)
      requires Valid()
      requires ptr != 0 ==> i < |blocks| && !blocks[i].free && ptr == Data(blocks[i])
      modifies this
      ensures Valid()
      ensures blocks == if ptr == 0 then old(blocks) else Release(old(blocks), i)
    {
      hide Segment, Represents, Release, HeaderAt, Tiles, UsedBytes;
      if ptr == 0 {
        return;
      }
      KfreeKeeps(mem, blocks, ramTop, i);
      var b := ptr - HDR_SIZE;
      var h := HeaderAt(mem)(b);
      heapUsed := heapUsed - h.size;
      h := h.(free := true);
      var n := HeaderAt(mem)(h.next);
      if h.next != 0 && n.free && b + HDR_SIZE + h.size == h.next {
        h := Header(h.size + HDR_SIZE + n.size, n.next, true);
      }
      mem := mem[b := h];
      blocks := Release(blocks, i);
    }
  }

  /** The headers kmalloc stores are those of the new list. */
  lemma TakenStores(mem: Memory, blocks: seq<Block>, top: nat, i: nat, size: nat)
    requires Tiles(blocks, top) && Represents(HeaderAt(mem), blocks)
    requires i < |blocks| && Suits(blocks[i], size) && size % 16 == 0
    ensures var b, next := blocks[i], NextAddr(blocks, i);
            var nb := b.addr + HDR_SIZE + size;
            var mem' := if b.size >= size + HDR_SIZE + MIN_SPLIT
                        then mem[nb := Header(b.size - size - HDR_SIZE, next, true)][b.addr := Header(size, nb, false)]
                        else mem[b.addr := Header(b.size, next, false)];
            Represents(HeaderAt(mem'), Take(blocks, i, size))
  {
    hide Represents, Segment, Exchanged, NextAddr, NoGaps;
    var b, next := blocks[i], NextAddr(blocks, i);
    var nb := b.addr + HDR_SIZE + size;
    var split := b.size >= size + HDR_SIZE + MIN_SPLIT;
    var mem' := if split
                then mem[nb := Header(b.size - size - HDR_SIZE, next, true)][b.addr := Header(size, nb, false)]
                else mem[b.addr := Header(b.size, next, false)];
    NoneInside(HDR_SIZE, blocks, HEAP_START, top, i, b.addr);
    if split {
      NoneInside(HDR_SIZE, blocks, HEAP_START, top, i, nb);
    }
    hide Tiles;
    MidRepresents(HeaderAt(mem), HeaderAt(mem'), blocks, Take(blocks, i, size), i, 1, Taken(b, size));
  }

  /** The header kfree stores is that of the new list. */
  lemma ReleasedStores(mem: Memory, blocks: seq<Block>, top: nat, i: nat)
    requires Tiles(blocks, top) && Represents(HeaderAt(mem), blocks) && i < |blocks| && !blocks[i].free
    ensures var x := Released(blocks, i);
            var next := NextAddr(blocks, i + Joined(blocks, i) - 1);
            Represents(HeaderAt(mem[x.addr := Header(x.size, next, true)]), Release(blocks, i))
  {
    var x := Released(blocks, i);
    var taken := Joined(blocks, i);
    var mem' := mem[x.addr := Header(x.size, NextAddr(blocks, i + taken - 1), true)];
    NoneInside(HDR_SIZE, blocks, HEAP_START, top, i, x.addr);
    hide Tiles, Represents, Segment;
    MidRepresents(HeaderAt(mem), HeaderAt(mem'), blocks, Release(blocks, i), i, taken, [x]);
  }

  // ---- runs ------------------------------------------------------------------

  datatype Request = Alloc(size: nat) | Free(ptr: nat)

  /** Any run of allocations and frees of what was allocated. The blocks the clients
      hold are then the live ones, so by `BlocksApart` none overlaps another. */
  method Serve(heap: Heap, requests: seq<Request>) returns (held: set<nat>)
    requires heap.Valid() && Live(heap.blocks) == {}
    requires forall r :: r in requests && r.Alloc? ==> r.size < TWO64
    modifies heap
    ensures heap.Valid()
    ensures forall p :: p in held <==> exists b :: b in Live(heap.blocks) && Data(b) == p
    ensures heap.heapUsed + FreeBytes(heap.blocks) + HDR_SIZE * (|heap.blocks| - 1) == heap.heapTotal
    ensures heap.ramTop <= Pfn.BASE ==> forall b :: b in Live(heap.blocks) ==> !OverFrames(b)
  {
    hide Segment, Represents, HeaderAt, Take, Release, UsedBytes;
    held := {};
    for k := 0 to |requests|
      invariant heap.Valid()
      invariant forall p :: p in held <==> exists b :: b in Live(heap.blocks) && Data(b) == p
    {
      hide Tiles;
      ghost var before := heap.blocks;
      match requests[k]
      case Alloc(size) =>
        var ptr, i := heap.Malloc(size);
        if ptr != 0 {
          TakeMakesLive(before, heap.ramTop, i, RoundUp(size));
          held := held + {ptr};
        }
      case Free(ptr) =>
        if ptr in held {
          ghost var b :| b in Live(before) && Data(b) == ptr;
          ghost var i :| 0 <= i < |before| && before[i] == b;
          ReleaseEndsLive(before, heap.ramTop, i);
          AddressesDiffer(HDR_SIZE, before, HEAP_START, heap.ramTop);
          heap.Kfree(ptr, i);
          held := held - {ptr};
        }
    }
    Accounting(HDR_SIZE, heap.blocks, HEAP_START, heap.ramTop);
    NoGapBytes(heap.blocks);
    if heap.ramTop <= Pfn.BASE {
      NoBlockOverFrames(heap.blocks, heap.ramTop);
    }
  }

  // ---- last in, first out ----------------------------------------------------

  /** `n` used blocks, then at most one free block. */
  predicate UsedPrefix(blocks: seq<Block>, n: nat) {
    && n <= |blocks| <= n + 1
    && (forall i :: 0 <= i < n ==> !blocks[i].free)
    && (|blocks| == n + 1 ==> blocks[n].free)
  }

  lemma TakeKeepsPrefix(blocks: seq<Block>, n: nat, i: nat, size: nat)
    requires UsedPrefix(blocks, n) && i < |blocks| && Suits(blocks[i], size)
    ensures i == n && UsedPrefix(Take(blocks, i, size), n + 1)
    ensures forall j :: 0 <= j <= n ==> Take(blocks, i, size)[j].addr == blocks[j].addr
  {
  }

  /** Freeing the last used block lets it join the free tail, although kfree only looks
      forward. */
  lemma ReleaseKeepsPrefix(blocks: seq<Block>, n: nat)
    requires UsedPrefix(blocks, n) && n > 0
    ensures UsedPrefix(Release(blocks, n - 1), n - 1)
    ensures forall j :: 0 <= j < n - 1 ==> Release(blocks, n - 1)[j].addr == blocks[j].addr
  {
  }

  /** A heap without used blocks, in this shape, is the initial heap. */
  lemma EmptyPrefixIsInitial(blocks: seq<Block>, top: nat)
    requires Tiles(blocks, top) && UsedPrefix(blocks, 0) && top > HEAP_START
    ensures top >= HEAP_START + HDR_SIZE && blocks == [Block(HEAP_START, top - HEAP_START - HDR_SIZE, true, 0)]
    ensures UsedBytes(blocks) == 0
  {
    if blocks != [] {
      SegmentEnds(HDR_SIZE, blocks, HEAP_START, top);
      assert blocks == [blocks[0]];
      OneBlock(HDR_SIZE, blocks[0]);
    }
  }

  datatype StackRequest = Push(size: nat) | Pop

  /** Every run in which the blocks are freed in reverse order of allocation, from a
      fresh heap; when nothing is held any more the heap is the initial one. */
  method ServeStack(heap: Heap, requests: seq<StackRequest>) returns (held: seq<nat>)
    requires heap.Valid() && UsedPrefix(heap.blocks, 0)
    requires forall r :: r in requests && r.Push? ==> r.size < TWO64
    modifies heap
    ensures heap.Valid() && UsedPrefix(heap.blocks, |held|)
    ensures held == [] ==> heap.blocks == [Block(HEAP_START, heap.heapTotal, true, 0)] && heap.heapUsed == 0
  {
    hide Tiles, Segment, Represents, HeaderAt, Take, Release, UsedBytes;
    held := [];
    for k := 0 to |requests|
      invariant heap.Valid() && UsedPrefix(heap.blocks, |held|)
      invariant forall i :: 0 <= i < |held| ==> held[i] == Data(heap.blocks[i])
    {
      ghost var before := heap.blocks;
      match requests[k]
      case Push(size) =>
        var ptr, i := heap.Malloc(size);
        if ptr != 0 {
          TakeKeepsPrefix(before, |held|, i, RoundUp(size));
          held := held + [ptr];
        }
      case Pop =>
        if held != [] {
          ReleaseKeepsPrefix(before, |held|);
          var ptr := held[|held| - 1];
          heap.Kfree(ptr, |held| - 1);
          held := held[..|held| - 1];
        }
    }
    if held == [] {
      EmptyPrefixIsInitial(heap.blocks, heap.ramTop);
    }
  }
}
