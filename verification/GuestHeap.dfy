/** The arena for drivers and NT structures: a block list whose 16-byte headers lie in
    physical memory, with aligned allocation, splitting in front and behind, and forward
    coalescing. A split behind loses 16 bytes, the gap. */
module GuestHeap {
  import opened Doubles
  import opened Physical
  import opened BlockList

  const ARENA_SIZE: nat := 0x100_0000
  const HEADER: nat := 16
  const MIN_PIECE: nat := 16

  // ---- headers in physical memory --------------------------------------------

  /** size at +0, next at +8, free at +12. */
  function HeaderAt(m: Memory): nat -> Header {
    a => Header(Read32(m, a), Read32(m, a + 8), Read32(m, a + 12) != 0)
  }

  function WriteBlock(m: Memory, a: nat, size: Word, next: Word, free: Word): Memory {
    Write32(Write32(Write32(m, a, size), a + 8, next), a + 12, free)
  }

  /** The same header, or one that shares no byte with it. */
  predicate HeaderApart(a: int, b: int) { a == b || a + HEADER <= b || b + HEADER <= a }

  lemma BlockWritten(m: Memory, a: nat, size: Word, next: Word, free: Word, b: nat)
    requires HeaderApart(a, b)
    ensures HeaderAt(WriteBlock(m, a, size, next, free))(b) ==
              if b == a then Header(size, next, free != 0) else HeaderAt(m)(b)
  {
  }

  function Data(b: Block): nat { b.addr + HEADER }

  // ---- where an aligned piece goes -------------------------------------------

  predicate PowerOfTwo(n: nat) { n == 1 || (n > 1 && n % 2 == 0 && PowerOfTwo(n / 2)) }

  /** `(x + align - 1) & ~(align - 1)` for a power of two, on doubles and then on 32-bit
      two's complement. The mask clears the low bits; for an alignment above 2 GB it
      clears all, and for one above 2^53, from which nothing as small as 1 can be taken,
      none. */
  function AlignUp(x: nat, align: nat): int
    requires align > 0
  {
    var a := ToInt32(Round(Round(x + align) - 1));
    if align <= TWO31 then RoundDown(a, align) else if align <= TWO53 then 0 else a
  }

  function RoundDown(a: int, align: nat): int
    requires align > 0
  {
    a - a % align
  }

  /** The padding that is looked for, one alignment more if the first has no room for a
      block. */
  function Padding(data: nat, align: nat): int
    requires align > 0
  {
    var padding := AlignUp(data, align) - data;
    if 0 < padding < HEADER + MIN_PIECE then Round(padding + align) else padding
  }

  /** The bytes that are skipped: the padding if a block fits in it. */
  function Skip(data: nat, align: nat): (skip: nat)
    requires align > 0
    ensures skip == 0 || skip >= HEADER + MIN_PIECE
  {
    if Padding(data, align) >= HEADER + MIN_PIECE then Padding(data, align) else 0
  }

  predicate MultipleOf(x: int, k: nat) { k > 0 && x % k == 0 }

  lemma IsMultiple(q: int, k: nat)
    requires k > 0
    ensures MultipleOf(k * q, k)
  {
    var d, r := k * q / k, k * q % k;
    assert k * q == k * d + r;
    var e := q - d;
    assert k * e == r;
    assert e >= 1 ==> k * e >= k;
    assert e <= -1 ==> k * e <= 0 - k;
  }

  lemma Quotient(x: int, k: nat) returns (q: int)
    requires MultipleOf(x, k)
    ensures x == k * q
  {
    q := x / k;
  }

  /** Sums, differences and multiples of multiples are multiples. */
  lemma SumOfMultiples(x: int, y: int, k: nat)
    requires MultipleOf(x, k) && MultipleOf(y, k)
    ensures MultipleOf(x + y, k) && MultipleOf(x - y, k)
  {
    var p := Quotient(x, k);
    var q := Quotient(y, k);
    hide MultipleOf;
    IsMultiple(p + q, k);
    IsMultiple(p - q, k);
    assert k * (p + q) == x + y && k * (p - q) == x - y;
  }

  lemma MultipleOfMultiple(x: int, k: nat, n: nat)
    requires MultipleOf(x, k) && MultipleOf(k, n)
    ensures MultipleOf(x, n)
  {
    var p := Quotient(x, k);
    var q := Quotient(k, n);
    assert n > 0;
    hide MultipleOf;
    IsMultiple(q * p, n);
    assert n * (q * p) == n * q * p;
  }

  /** Two multiples of `k` are the same or at least `k` apart. */
  lemma MultiplesApart(a: int, b: int, k: nat)
    requires MultipleOf(a, k) && MultipleOf(b, k) && a < b
    ensures a + k <= b
  {
    var p := Quotient(a, k);
    var q := Quotient(b, k);
    assert k > 0;
    hide MultipleOf;
    var d := q - p;
    assert k * d == b - a;
    assert d <= 0 ==> k * d <= 0;
    assert d >= 1 ==> k * d >= k;
  }

  lemma NoMultipleBelow(x: int, k: nat)
    requires 0 < x < k
    ensures !MultipleOf(x, k)
  {
  }

  lemma RoundedDown(a: int, align: nat)
    requires align > 0
    ensures a - align < RoundDown(a, align) <= a && MultipleOf(RoundDown(a, align), align)
  {
    var q := a / align;
    assert a == align * q + a % align;
    IsMultiple(q, align);
  }

  // ---- powers of two ---------------------------------------------------------

  lemma {:induction false} PowersDivide(n: nat, m: nat)
    requires PowerOfTwo(n) && PowerOfTwo(m) && n <= m
    ensures MultipleOf(m, n)
  {
    if n > 1 {
      PowersDivide(n / 2, m / 2);
      var h := n / 2;
      assert n == 2 * h && m == 2 * (m / 2);
      var k := Quotient(m / 2, h);
      hide PowerOfTwo, MultipleOf;
      assert m == n * k by {
        assert 2 * (h * k) == 2 * h * k;
      }
      IsMultiple(k, n);
    }
  }

  function Doubled(times: nat): (n: nat)
    ensures n >= 1
  {
    if times == 0 then 1 else 2 * Doubled(times - 1)
  }

  lemma {:induction false} DoubledIsPower(times: nat)
    ensures PowerOfTwo(Doubled(times))
  {
    if times > 0 {
      DoubledIsPower(times - 1);
    }
  }

  lemma PowersOfTwo()
    ensures PowerOfTwo(16) && PowerOfTwo(TWO31)
  {
    assert Doubled(4) == 16;
    assert Doubled(8) == 0x100;
    assert Doubled(16) == 0x1_0000;
    assert Doubled(24) == 0x100_0000;
    assert Doubled(31) == TWO31;
    DoubledIsPower(4);
    DoubledIsPower(31);
  }

  lemma FromSixteen(n: nat)
    requires PowerOfTwo(n)
    ensures n >= 16 ==> MultipleOf(n, 16)
    ensures 0 < n <= 16 || n >= 32
  {
    PowersOfTwo();
    if n >= 16 {
      PowersDivide(16, n);
    }
  }

  // ---- the address that is handed out ----------------------------------------

  /** The rounded address is the next multiple of the alignment exactly if the sum before
      rounding stays below 2 GB; otherwise it is not positive, or the alignment is one
      above 2^53 and the address still lies below 2 GB. */
  lemma AlignUpMeans(data: nat, align: nat)
    requires 0 < data < TWO31 && align > 0
    ensures data + align <= TWO31 ==>
              data <= AlignUp(data, align) < data + align && MultipleOf(AlignUp(data, align), align)
    ensures data + align > TWO31 && align <= TWO53 ==> AlignUp(data, align) <= 0
    ensures align > TWO53 ==> AlignUp(data, align) < TWO31
  {
    Int32Below(Round(Round(data + align) - 1));
    hide ToInt32, RoundDown, MultipleOf, Round;
    if align <= TWO31 {
      SmallIsDouble(data + align);
      SmallIsDouble(data + align - 1);
      Int32Of(data + align - 1);
      RoundedDown(ToInt32(data + align - 1), align);
    }
  }

  lemma Int32Below(x: int)
    ensures ToInt32(x) < TWO31
  {
  }

  lemma Int32Of(x: nat)
    requires x < TWO32
    ensures ToInt32(x) == if x < TWO31 then x else x - TWO32
  {
  }

  /** The address that is handed out for the block with this data is aligned exactly if
      the sum stays below 2 GB and, for alignments up to 16, the data is aligned
      already: a small padding has no room for a block and is not skipped. */
  lemma AlignedIff(data: nat, align: nat)
    requires 0 < data < TWO31 && PowerOfTwo(align) && (align > TWO53 ==> Padding(data, align) < TWO31)
    ensures MultipleOf(data + Skip(data, align), align) <==>
            data + align <= TWO31 && (align >= 32 || MultipleOf(data, align))
  {
    FromSixteen(align);
    hide AlignUp, PowerOfTwo, MultipleOf, Round;
    AlignUpMeans(data, align);
    var up := AlignUp(data, align);
    if align > TWO53 {
      SkippedBelow(data, align, up);
      NoMultipleBelow(data + Skip(data, align), align);
    } else if data + align > TWO31 {
      NotAlignedAbove(data, align);
    } else {
      AlignedBelow(data, align, up);
    }
  }

  /** An alignment above 2^53 is added to no padding, for want of a block of that size. */
  lemma SkippedBelow(data: nat, align: nat, up: int)
    requires 0 < data < TWO31 && align > TWO53 && Padding(data, align) < TWO31
    requires up == AlignUp(data, align) < TWO31
    ensures 0 < data + Skip(data, align) < align
  {
    hide AlignUp, DoubleOf;
    if 0 < up - data < HEADER + MIN_PIECE {
      FiftyThreeMore(0);
      RoundKeepsPowers(up - data + align, 53);
    }
  }

  lemma AlignedBelow(data: nat, align: nat, up: int)
    requires 0 < align && (align <= 16 || align >= 32)
    requires up == AlignUp(data, align) && data <= up < data + align <= TWO31 && MultipleOf(up, align)
    ensures MultipleOf(data + Skip(data, align), align) <==> align >= 32 || MultipleOf(data, align)
  {
    hide AlignUp, MultipleOf, Round;
    if up > data {
      SmallIsDouble(up - data + align);
      if MultipleOf(data, align) {
        MultiplesApart(data, up, align);
      }
      IsMultiple(1, align);
      SumOfMultiples(up, align, align);
      assert data + (up - data) == up && data + (up - data + align) == up + align;
    }
  }

  /** 2 GB is a power of two that the mask turns negative: nothing is skipped, and the
      piece starts where the data does, unaligned. */
  lemma TwoGigabytesAreMissed()
    ensures PowerOfTwo(TWO31) && AlignUp(0x200_0010, TWO31) == -TWO31
    ensures Skip(0x200_0010, TWO31) == 0 && !MultipleOf(0x200_0010, TWO31)
  {
    PowersOfTwo();
    hide PowerOfTwo;
  }

  /** From an alignment of 2^54 no 1 can be taken: the mask clears nothing, and no padding is
      looked for. */
  lemma NothingIsMaskedAbove()
    ensures AlignUp(0x200_0010, 0x40_0000_0000_0000) == 0x200_0010 && Padding(0x200_0010, 0x40_0000_0000_0000) == 0
  {
    var sum := 0x40_0000_0200_0010;
    UnitFour(sum);
    UnitFour(sum - 1);
    hide UnitFrom;
    assert Round(sum) == sum && Round(sum - 1) == sum;
  }

  lemma UnitFour(v: nat)
    requires 0x40_0000_0000_0000 <= v < 0x80_0000_0000_0000
    ensures UnitFrom(v, 1) == 4
  {
    assert UnitFrom(v, 4) == 4;
    assert UnitFrom(v, 2) == 4;
  }

  lemma NotAlignedAbove(data: nat, align: nat)
    requires 0 < data < TWO31 && PowerOfTwo(align) && data + align > TWO31
    ensures !MultipleOf(data, align)
  {
    hide MultipleOf;
    if align <= TWO31 {
      PowersOfTwo();
      PowersDivide(align, TWO31);
      if MultipleOf(data, align) {
        MultiplesApart(data, TWO31, align);
      }
    } else {
      NoMultipleBelow(data, align);
    }
  }

  /** With the data at a multiple of 16 the skipped bytes are one too. */
  lemma SkipsSixteens(data: nat, align: nat)
    requires 0 < data < TWO31 && PowerOfTwo(align) && align >= 16 && data + align <= TWO31
    requires MultipleOf(data, 16)
    ensures MultipleOf(Skip(data, align), 16) && MultipleOf(data + Skip(data, align), align)
  {
    FromSixteen(align);
    AlignedIff(data, align);
    hide AlignUp, PowerOfTwo, MultipleOf, Round;
    AlignUpMeans(data, align);
    var up := AlignUp(data, align);
    SmallIsDouble(up - data + align);
    MultipleOfMultiple(up, align, 16);
    SumOfMultiples(up, data, 16);
    SumOfMultiples(up - data, align, 16);
    IsMultiple(0, 16);
  }

  // ---- what allocation and release do to the list ----------------------------

  /** The walk accepts the first free block with room for the padding and the size. */
  predicate Suits(b: Block, size: nat, align: nat)
    requires align > 0
  {
    b.free && b.size >= Padding(Data(b), align) + size
  }

  /** Whether a block is split off behind the piece. */
  predicate SplitsBehind(b: Block, skip: nat, size: nat) { b.size - skip - size >= HEADER + MIN_PIECE }

  /** The one used block among those that take the place of `b`. */
  function Piece(b: Block, skip: nat, size: nat): Block
    requires skip <= b.size
  {
    if SplitsBehind(b, skip, size) then Block(b.addr + skip, size, false, 0)
    else Block(b.addr + skip, b.size - skip, false, b.gap)
  }

  /** The blocks that take the place of `b` when `size` bytes behind `skip` are taken. */
  function Placed(b: Block, skip: nat, size: nat): (mid: seq<Block>)
    requires skip <= b.size && (skip == 0 || skip >= HEADER + MIN_PIECE)
    ensures mid != [] && mid[0].addr == b.addr
  {
    (if skip > 0 then [Block(b.addr, skip - HEADER, true, 0)] else []) +
    [Piece(b, skip, size)] +
    if SplitsBehind(b, skip, size) then
      [Block(b.addr + skip + HEADER + size, b.size - skip - size - HEADER - MIN_PIECE, true, b.gap + MIN_PIECE)]
    else []
  }

  /** The skipped bytes are inside a block that suits. */
  lemma SkipFits(b: Block, size: nat, align: nat)
    requires align > 0 && Suits(b, size, align)
    ensures Skip(Data(b), align) <= b.size && Padding(Data(b), align) <= b.size
    ensures Padding(Data(b), align) >= 0 ==> Skip(Data(b), align) + size <= b.size
  {
  }

  lemma PlacedTiles(b: Block, skip: nat, size: nat)
    requires skip <= b.size && (skip == 0 || skip >= HEADER + MIN_PIECE)
    ensures Segment(HEADER, Placed(b, skip, size), b.addr, EndOf(HEADER, [b], 0))
    ensures GapBytes(Placed(b, skip, size)) == b.gap + if SplitsBehind(b, skip, size) then MIN_PIECE else 0
  {
    hide Segment, GapBytes, EndOf;
    OneBlock(HEADER, b);
    var piece := Piece(b, skip, size);
    var back := if SplitsBehind(b, skip, size) then
      [Block(b.addr + skip + HEADER + size, b.size - skip - size - HEADER - MIN_PIECE, true, b.gap + MIN_PIECE)]
    else [];
    OneBlock(HEADER, piece);
    if back != [] {
      OneBlock(HEADER, back[0]);
      TwoBlocks(HEADER, piece, back[0]);
    }
    var rest := [piece] + back;
    assert rest == if back == [] then [piece] else [piece, back[0]];
    if skip > 0 {
      var front := Block(b.addr, skip - HEADER, true, 0);
      OneBlock(HEADER, front);
      assert Placed(b, skip, size) == [front] + rest;
      SegmentOfConcat(HEADER, [front], rest, b.addr, EndOf(HEADER, [b], 0));
      BytesOfConcat([front], rest);
      EndOfOne(HEADER, front, b.addr);
    } else {
      assert Placed(b, skip, size) == rest;
    }
  }

  lemma EndOfOne(hdr: nat, b: Block, start: nat)
    ensures EndOf(hdr, [b], start) == End(hdr, b) + b.gap
  {
  }

  function Place(blocks: seq<Block>, i: nat, size: nat, align: nat): seq<Block>
    requires i < |blocks| && align > 0 && Suits(blocks[i], size, align)
  {
    SkipFits(blocks[i], size, align);
    Exchanged(blocks, i, 1, Placed(blocks[i], Skip(Data(blocks[i]), align), size))
  }

  /** Released blocks are joined with the next one if it is free and no gap is between. */
  function Joined(blocks: seq<Block>, i: nat): (n: nat)
    requires i < |blocks|
    ensures i + n <= |blocks|
  {
    if i + 1 < |blocks| && blocks[i + 1].free && blocks[i].gap == 0 then 2 else 1
  }

  function Released(blocks: seq<Block>, i: nat): Block
    requires i < |blocks|
  {
    var b := blocks[i];
    if Joined(blocks, i) == 2 then
      Block(b.addr, b.size + HEADER + blocks[i + 1].size, true, blocks[i + 1].gap)
    else b.(free := true)
  }

  function Release(blocks: seq<Block>, i: nat): seq<Block>
    requires i < |blocks|
  {
    Exchanged(blocks, i, Joined(blocks, i), [Released(blocks, i)])
  }

  /** A released block is free, and larger by the next one and its header if that is free
      and no bytes were lost between; all others stay. */
  lemma ReleaseMeans(blocks: seq<Block>, i: nat)
    requires i < |blocks|
    ensures var after, b := Release(blocks, i), blocks[i];
            && i < |after| && after[i].free && after[i].addr == b.addr && after[..i] == blocks[..i]
            && (if i + 1 < |blocks| && blocks[i + 1].free && b.gap == 0 then
                  after[i].size == b.size + 16 + blocks[i + 1].size && after[i + 1..] == blocks[i + 2..]
                else after[i].size == b.size && after[i + 1..] == blocks[i + 1..])
  {
  }

  /** What takes the place of a block: a free one of the skipped bytes, if any, the piece,
      which exceeds the size by less than 32 bytes, and a free one of the rest, if that has
      room for a header and 16 bytes. */
  lemma PlacedMeans(b: Block, skip: nat, size: nat)
    requires skip + size <= b.size && (skip == 0 || skip >= 32)
    ensures var s, n := Placed(b, skip, size), if skip == 0 then 0 else 1;
            && n < |s| <= n + 2 && (skip > 0 ==> s[0] == Block(b.addr, skip - 16, true, 0))
            && !s[n].free && s[n].addr == b.addr + skip && size <= s[n].size < size + 32
            && (|s| == n + 2 <==> b.size - skip - size >= 32)
            && (|s| == n + 2 ==> s[n].size == size && s[n + 1].free && s[n + 1].addr == b.addr + skip + 16 + size
                                 && s[n + 1].size == b.size - skip - size - 32)
  {
  }

  /** A free block suits exactly if some address in it is a multiple of the alignment, has
      the size behind it, and is its first or leaves room for a block in front. */
  lemma SuitsIff(b: Block, size: nat, align: nat)
    requires 0 < Data(b) && Data(b) + align <= TWO31 && PowerOfTwo(align) && align >= 32
    ensures Suits(b, size, align) <==>
            b.free && exists p: nat :: MultipleOf(p, align) && (p == Data(b) || p >= Data(b) + 32)
                                       && p + size <= Data(b) + b.size
  {
    hide AlignUp, MultipleOf, Round, PowerOfTwo;
    var data, skip := Data(b), Padding(Data(b), align);
    AlignedIff(data, align);
    AlignUpMeans(data, align);
    var up := AlignUp(data, align);
    SmallIsDouble(up - data + align);
    SkipIs(data, align);
    if Suits(b, size, align) {
      assert MultipleOf(data + skip, align);
    }
    forall p: nat | MultipleOf(p, align) && (p == data || p >= data + 32) ensures p >= data + skip {
      NoneBetween(data, align, up, p);
    }
  }

  /** No multiple of the alignment lies between the data and the rounded address, nor
      between that and the next. */
  lemma NoneBetween(data: nat, align: nat, up: int, p: nat)
    requires align > 0 && data <= up < data + align && MultipleOf(up, align) && MultipleOf(p, align) && p >= data
    ensures p >= up && (p == up || p >= up + align)
  {
    hide MultipleOf;
    if p < up {
      MultiplesApart(p, up, align);
    } else if p > up {
      MultiplesApart(up, p, align);
    }
  }

  /** Whatever the size and the alignment, an allocation keeps the arena tiled. */
  lemma PlaceKeepsTiles(blocks: seq<Block>, start: nat, end: nat, i: nat, size: nat, align: nat)
    requires Segment(HEADER, blocks, start, end) && i < |blocks|
    requires align > 0 && Suits(blocks[i], size, align)
    ensures Segment(HEADER, Place(blocks, i, size, align), start, end) && Place(blocks, i, size, align) != []
    ensures GapBytes(Place(blocks, i, size, align)) ==
            GapBytes(blocks) + if SplitsBehind(blocks[i], Skip(Data(blocks[i]), align), size) then MIN_PIECE else 0
  {
    hide Segment, GapBytes, EndOf, Exchanged, Skip, SplitsBehind;
    var b, skip := blocks[i], Skip(Data(blocks[i]), align);
    SkipFits(b, size, align);
    hide Suits, Placed;
    InSegment(HEADER, blocks, start, end, i);
    PlacedTiles(b, skip, size);
    OneBlock(HEADER, b);
    assert blocks[i..i + 1] == [b];
    ExchangeKeepsSegment(HEADER, blocks, start, end, i, 1, Placed(b, skip, size));
    ExchangeCounts(blocks, i, 1, Placed(b, skip, size));
  }

  /** A request that keeps all blocks at multiples of 16. */
  predicate Regular(size: nat, align: nat) { size % 16 == 0 && align >= 16 }

  lemma PlaceKeepsBoundaries(blocks: seq<Block>, start: nat, end: nat, i: nat, size: nat, align: nat)
    requires Segment(HEADER, blocks, start, end) && end + align <= TWO31 && i < |blocks|
    requires PowerOfTwo(align) && Regular(size, align) && Suits(blocks[i], size, align)
    requires OnBoundaries(blocks)
    ensures OnBoundaries(Place(blocks, i, size, align))
    ensures MultipleOf(Data(blocks[i]) + Skip(Data(blocks[i]), align), align)
  {
    hide Segment, PowerOfTwo, Skip, Suits, OnBoundaries, Placed, Exchanged, MultipleOf;
    var b := blocks[i];
    SkipFits(b, size, align);
    BoundaryAt(blocks, i);
    InSegment(HEADER, blocks, start, end, i);
    SkipsSixteens(Data(b), align);
    PlacedOnBoundaries(b, Skip(Data(b), align), size);
    ExchangeKeepsBoundaries(blocks, i, 1, Placed(b, Skip(Data(b), align), size));
  }

  lemma BoundaryAt(blocks: seq<Block>, i: nat)
    requires OnBoundaries(blocks) && i < |blocks|
    ensures MultipleOf(blocks[i].addr, 16) && MultipleOf(Data(blocks[i]), 16)
  {
  }

  lemma PlacedOnBoundaries(b: Block, skip: nat, size: nat)
    requires skip <= b.size && (skip == 0 || skip >= HEADER + MIN_PIECE)
    requires MultipleOf(b.addr, 16) && MultipleOf(skip, 16) && size % 16 == 0
    ensures OnBoundaries(Placed(b, skip, size))
  {
    var p := b.addr + skip;
    assert p % 16 == 0 && (p + HEADER + size) % 16 == 0;
  }

  lemma ReleaseKeepsTiles(blocks: seq<Block>, start: nat, end: nat, i: nat)
    requires Segment(HEADER, blocks, start, end) && i < |blocks| && !blocks[i].free
    ensures Segment(HEADER, Release(blocks, i), start, end) && Release(blocks, i) != []
    ensures GapBytes(Release(blocks, i)) == GapBytes(blocks)
    ensures OnBoundaries(blocks) ==> OnBoundaries(Release(blocks, i))
  {
    hide Segment, GapBytes, EndOf;
    var b, x, n := blocks[i], Released(blocks, i), Joined(blocks, i);
    InSegment(HEADER, blocks, start, end, i);
    OneBlock(HEADER, b);
    OneBlock(HEADER, x);
    if n == 2 {
      assert blocks[i..i + n] == [b, blocks[i + 1]];
      InSegment(HEADER, blocks, start, end, i + 1);
      TwoBlocks(HEADER, b, blocks[i + 1]);
    } else {
      assert blocks[i..i + n] == [b];
    }
    ExchangeKeepsSegment(HEADER, blocks, start, end, i, n, [x]);
    ExchangeCounts(blocks, i, n, [x]);
    if OnBoundaries(blocks) {
      ExchangeKeepsBoundaries(blocks, i, n, [x]);
    }
  }

  // ---- the stores ------------------------------------------------------------

  /** The header of the piece, after a possible split in front. */
  function StoreFront(m: Memory, block: nat, available: nat, skip: nat, next: Word): Memory
    requires block + HEADER + available < TWO32 && skip <= available && (skip == 0 || skip >= HEADER)
  {
    if skip > 0 then
      WriteBlock(WriteBlock(m, block, skip - HEADER, block + skip, 1), block + skip, available - skip, next, 1)
    else m
  }

  /** And the headers of the piece at `p` and of the rest, after a possible split behind. */
  function StoreBack(m: Memory, p: nat, size: nat, available: nat, next: Word): Memory
    requires p + HEADER + available < TWO32
  {
    if available - size >= HEADER + MIN_PIECE then
      WriteBlock(WriteBlock(m, p + HEADER + size, available - size - HEADER - MIN_PIECE, next, 1),
                 p, size, p + HEADER + size, 0)
    else
      WriteBlock(m, p, available, next, 0)
  }

  /** A block with room for the skipped bytes, all below 4 GB. */
  predicate Carvable(b: Block, skip: nat) {
    End(HEADER, b) < TWO32 && skip <= b.size && (skip == 0 || skip >= HEADER + MIN_PIECE)
  }

  /** All the stores of one allocation in block `b`. */
  function Stores(m: Memory, b: Block, skip: nat, size: nat, next: Word): Memory
    requires Carvable(b, skip)
  {
    StoreBack(StoreFront(m, b.addr, b.size, skip, next), b.addr + skip, size, b.size - skip, next)
  }

  /** The address of the header behind the piece. */
  function Behind(b: Block, skip: nat, size: nat): nat { b.addr + skip + HEADER + size }

  lemma StoredHeaders(m: Memory, b: Block, skip: nat, size: nat, next: Word, a: nat)
    requires Carvable(b, skip) && HeaderApart(a, b.addr) && HeaderApart(a, b.addr + skip)
    requires SplitsBehind(b, skip, size) ==> HeaderApart(a, Behind(b, skip, size))
    ensures var p, nb := b.addr + skip, Behind(b, skip, size);
            HeaderAt(Stores(m, b, skip, size, next))(a) ==
              if SplitsBehind(b, skip, size) && a == nb then
                Header(b.size - skip - size - HEADER - MIN_PIECE, next, true)
              else if a == p then
                if SplitsBehind(b, skip, size) then Header(size, nb, false) else Header(b.size - skip, next, false)
              else if skip > 0 && a == b.addr then Header(skip - HEADER, p, true)
              else HeaderAt(m)(a)
  {
    hide StoreFront, StoreBack, HeaderAt;
    StoredFront(m, b.addr, b.size, skip, next, a);
    StoredBack(StoreFront(m, b.addr, b.size, skip, next), b.addr + skip, size, b.size - skip, next, a);
  }

  lemma StoredFront(m: Memory, block: nat, available: nat, skip: nat, next: Word, a: nat)
    requires block + HEADER + available < TWO32 && skip <= available && (skip == 0 || skip >= HEADER + MIN_PIECE)
    requires HeaderApart(a, block) && HeaderApart(a, block + skip)
    ensures HeaderAt(StoreFront(m, block, available, skip, next))(a) ==
              if skip > 0 && a == block then Header(skip - HEADER, block + skip, true)
              else if skip > 0 && a == block + skip then Header(available - skip, next, true)
              else HeaderAt(m)(a)
  {
    hide HeaderAt, WriteBlock;
    if skip > 0 {
      BlockWritten(m, block, skip - HEADER, block + skip, 1, a);
      BlockWritten(WriteBlock(m, block, skip - HEADER, block + skip, 1), block + skip, available - skip, next, 1, a);
    }
  }

  lemma StoredBack(m: Memory, p: nat, size: nat, available: nat, next: Word, a: nat)
    requires p + HEADER + available < TWO32 && HeaderApart(a, p)
    requires available - size >= HEADER + MIN_PIECE ==> HeaderApart(a, p + HEADER + size)
    ensures var nb, rest := p + HEADER + size, available - size;
            HeaderAt(StoreBack(m, p, size, available, next))(a) ==
              if rest >= HEADER + MIN_PIECE && a == nb then Header(rest - HEADER - MIN_PIECE, next, true)
              else if a == p then
                if rest >= HEADER + MIN_PIECE then Header(size, nb, false) else Header(available, next, false)
              else HeaderAt(m)(a)
  {
    hide HeaderAt, WriteBlock;
    var nb, rest := p + HEADER + size, available - size;
    if rest >= HEADER + MIN_PIECE {
      BlockWritten(m, nb, rest - HEADER - MIN_PIECE, next, 1, a);
      BlockWritten(WriteBlock(m, nb, rest - HEADER - MIN_PIECE, next, 1), p, size, nb, 0, a);
    } else {
      BlockWritten(m, p, available, next, 0, a);
    }
  }

  lemma StoresMakeMid(m: Memory, b: Block, skip: nat, size: nat, next: Word, k: nat)
    requires Carvable(b, skip) && k < |Placed(b, skip, size)|
    ensures var mid := Placed(b, skip, size);
            HeaderAt(Stores(m, b, skip, size, next))(mid[k].addr) ==
            Header(mid[k].size, LinkIn(mid, k, next), mid[k].free)
  {
    hide HeaderAt, Stores;
    StoredHeaders(m, b, skip, size, next, Placed(b, skip, size)[k].addr);
  }

  lemma StoresKeepOthers(m: Memory, blocks: seq<Block>, start: nat, end: nat, i: nat, skip: nat, size: nat,
                         next: Word, j: nat)
    requires Segment(HEADER, blocks, start, end) && i < |blocks| && j < |blocks| && i != j
    requires Carvable(blocks[i], skip)
    ensures HeaderAt(Stores(m, blocks[i], skip, size, next))(blocks[j].addr) == HeaderAt(m)(blocks[j].addr)
  {
    hide Segment, HeaderAt, Stores;
    BlocksApart(HEADER, blocks, start, end, i, j);
    StoredHeaders(m, blocks[i], skip, size, next, blocks[j].addr);
  }

  lemma InArena(blocks: seq<Block>, start: nat, end: nat, i: nat)
    requires Segment(HEADER, blocks, start, end) && end < TWO32 && i < |blocks|
    ensures NextAddr(blocks, i) < TWO32 && End(HEADER, blocks[i]) < TWO32
  {
    InSegment(HEADER, blocks, start, end, i);
    if i + 1 < |blocks| {
      InSegment(HEADER, blocks, start, end, i + 1);
    }
  }

  /** After an allocation the headers in memory are those of the new list. */
  lemma PlacedStores(m: Memory, blocks: seq<Block>, start: nat, end: nat, i: nat, size: nat, align: nat)
    requires Segment(HEADER, blocks, start, end) && end < TWO32 && i < |blocks|
    requires Represents(HeaderAt(m), blocks) && align > 0 && Suits(blocks[i], size, align)
    ensures var b, skip, next := blocks[i], Skip(Data(blocks[i]), align), NextAddr(blocks, i);
            && next < TWO32 && Carvable(b, skip)
            && Represents(HeaderAt(Stores(m, b, skip, size, next)), Place(blocks, i, size, align))
  {
    hide Skip, Segment, Represents, HeaderAt, Stores, NextAddr, Placed, Exchanged;
    var b, skip := blocks[i], Skip(Data(blocks[i]), align);
    SkipFits(b, size, align);
    InArena(blocks, start, end, i);
    StoredAt(m, blocks, start, end, i, skip, size, NextAddr(blocks, i));
  }

  lemma StoredAt(m: Memory, blocks: seq<Block>, start: nat, end: nat, i: nat, skip: nat, size: nat, next: Word)
    requires Segment(HEADER, blocks, start, end) && i < |blocks| && Represents(HeaderAt(m), blocks)
    requires next == NextAddr(blocks, i) && Carvable(blocks[i], skip)
    ensures Represents(HeaderAt(Stores(m, blocks[i], skip, size, next)),
                       Exchanged(blocks, i, 1, Placed(blocks[i], skip, size)))
  {
    hide Segment, Represents, HeaderAt, Stores, NextAddr, Placed, Exchanged, LinkIn;
    var b := blocks[i];
    var m', mid := Stores(m, b, skip, size, next), Placed(b, skip, size);
    forall j | 0 <= j < |blocks| && !(i <= j < i + 1)
      ensures HeaderAt(m')(blocks[j].addr) == HeaderAt(m)(blocks[j].addr)
    {
      StoresKeepOthers(m, blocks, start, end, i, skip, size, next, j);
    }
    forall k | 0 <= k < |mid|
      ensures HeaderAt(m')(mid[k].addr) == Header(mid[k].size, LinkIn(mid, k, next), mid[k].free)
    {
      StoresMakeMid(m, b, skip, size, next, k);
    }
    MidRepresents(HeaderAt(m), HeaderAt(m'), blocks, Exchanged(blocks, i, 1, mid), i, 1, mid);
  }

  lemma FreeWritten(m: Memory, a: nat, b: nat)
    requires HeaderApart(a, b)
    ensures HeaderAt(Write32(m, a + 12, 1))(b) ==
              if b == a then HeaderAt(m)(a).(free := true) else HeaderAt(m)(b)
  {
  }

  /** After a release the header of the block, or of the joined one, is all that is new. */
  lemma ReleasedStores(m: Memory, m': Memory, blocks: seq<Block>, start: nat, end: nat, i: nat)
    requires Segment(HEADER, blocks, start, end) && i < |blocks|
    requires Represents(HeaderAt(m), blocks)
    requires var x, next := Released(blocks, i), NextAddr(blocks, i + Joined(blocks, i) - 1);
             HeaderAt(m')(x.addr) == Header(x.size, next, true)
    requires forall a: nat ::
               HeaderApart(a, blocks[i].addr) && a != blocks[i].addr ==> HeaderAt(m')(a) == HeaderAt(m)(a)
    ensures Represents(HeaderAt(m'), Release(blocks, i))
  {
    hide Segment, NextAddr, HeaderAt, Represents;
    var x, n := Released(blocks, i), Joined(blocks, i);
    forall j | 0 <= j < |blocks| && !(i <= j < i + n)
      ensures HeaderAt(m')(blocks[j].addr) == HeaderAt(m)(blocks[j].addr)
    {
      BlocksApart(HEADER, blocks, start, end, i, j);
    }
    MidRepresents(HeaderAt(m), HeaderAt(m'), blocks, Release(blocks, i), i, n, [x]);
  }

  /** The header that is left when the next one is read and compared as on release: the
      blocks are joined exactly when the next one is free and no gap is between. */
  lemma FreedHeader(blocks: seq<Block>, start: nat, end: nat, i: nat, h: Header, n: Header)
    requires Segment(HEADER, blocks, start, end) && start > 0 && end < TWO32 && i < |blocks|
    requires h == Header(blocks[i].size, NextAddr(blocks, i), true)
    requires i + 1 < |blocks| ==> n == Header(blocks[i + 1].size, NextAddr(blocks, i + 1), blocks[i + 1].free)
    ensures (h.next != 0 && n.free && blocks[i].addr + HEADER + h.size == h.next) <==> Joined(blocks, i) == 2
    ensures var x, next := Released(blocks, i), NextAddr(blocks, i + Joined(blocks, i) - 1);
            && x.addr == blocks[i].addr && x.size < TWO32 && next < TWO32
            && Header(x.size, next, true) ==
                 if Joined(blocks, i) == 2 then Header(h.size + HEADER + n.size, n.next, true) else h
  {
    InArena(blocks, start, end, i);
    InSegment(HEADER, blocks, start, end, i);
    if i + 1 < |blocks| {
      InArena(blocks, start, end, i + 1);
      InSegment(HEADER, blocks, start, end, i + 1);
    }
    hide Segment;
  }

  /** The two headers that a release of block `i` reads, and what it leaves. */
  lemma ReleaseReads(m: Memory, blocks: seq<Block>, start: nat, end: nat, i: nat, block: nat)
    requires Segment(HEADER, blocks, start, end) && start > 0 && end < TWO32 && i < |blocks|
    requires Represents(HeaderAt(m), blocks) && block == blocks[i].addr
    ensures var m1 := Write32(m, block + 12, 1);
            var h := HeaderAt(m1)(block);
            var n := HeaderAt(m1)(h.next);
            var x, next := Released(blocks, i), NextAddr(blocks, i + Joined(blocks, i) - 1);
            && x.addr == block
            && (h.next != 0 ==> h.size + HEADER + n.size < TWO32 && n.next < TWO32)
            && Header(x.size, next, true) ==
                 if h.next != 0 && n.free && block + HEADER + h.size == h.next
                 then Header(h.size + HEADER + n.size, n.next, true) else h
  {
    hide Segment, HeaderAt, Represents, Write32, Released, Joined;
    InArena(blocks, start, end, i);
    RepresentedAt(HeaderAt(m), blocks, i);
    FreeWritten(m, block, block);
    if i + 1 < |blocks| {
      InArena(blocks, start, end, i + 1);
      InSegment(HEADER, blocks, start, end, i);
      RepresentedAt(HeaderAt(m), blocks, i + 1);
      FreeWritten(m, block, blocks[i + 1].addr);
    }
    var h := HeaderAt(Write32(m, block + 12, 1))(block);
    var n := HeaderAt(Write32(m, block + 12, 1))(h.next);
    assert i + 1 < |blocks| ==> n == Header(blocks[i + 1].size, NextAddr(blocks, i + 1), blocks[i + 1].free);
    hide NextAddr;
    FreedHeader(blocks, start, end, i, h, n);
  }

  lemma FreeStays(m: Memory, block: nat)
    ensures forall a: nat :: HeaderApart(a, block) && a != block ==>
              HeaderAt(Write32(m, block + 12, 1))(a) == HeaderAt(m)(a)
    ensures forall b :: b < block || b >= block + HEADER ==> Read32(Write32(m, block + 12, 1), b) == Read32(m, b)
  {
  }

  lemma JoinStays(m: Memory, block: nat, size: Word, next: Word)
    ensures HeaderAt(WriteBlock(m, block, size, next, 1))(block) == Header(size, next, true)
    ensures forall a: nat :: HeaderApart(a, block) && a != block ==>
              HeaderAt(WriteBlock(m, block, size, next, 1))(a) == HeaderAt(m)(a)
    ensures forall b :: b < block || b >= block + HEADER ==>
              Read32(WriteBlock(m, block, size, next, 1), b) == Read32(m, b)
  {
    BlockWritten(m, block, size, next, 1, block);
    forall a: nat | HeaderApart(a, block) && a != block
      ensures HeaderAt(WriteBlock(m, block, size, next, 1))(a) == HeaderAt(m)(a)
    {
      BlockWritten(m, block, size, next, 1, a);
    }
    hide HeaderAt;
  }

  lemma HeaderUntouched(m: Memory, a: int, v: Word, b: nat)
    requires a + 4 <= b || a >= b + HEADER
    ensures HeaderAt(Write32(m, a, v))(b) == HeaderAt(m)(b)
  {
  }

  lemma SameHeaders(h: nat -> Header, h': nat -> Header, blocks: seq<Block>)
    requires Represents(h, blocks) && forall j :: 0 <= j < |blocks| ==> h'(blocks[j].addr) == h(blocks[j].addr)
    ensures Represents(h', blocks)
  {
  }

  /** A word of the data of a block is no word of any header. */
  lemma DataStoreKeepsHeaders(m: Memory, blocks: seq<Block>, start: nat, end: nat, i: nat, a: nat, v: Word)
    requires Segment(HEADER, blocks, start, end) && i < |blocks| && Represents(HeaderAt(m), blocks)
    requires Data(blocks[i]) <= a && a + 4 <= End(HEADER, blocks[i])
    ensures Represents(HeaderAt(Write32(m, a, v)), blocks)
  {
    hide Segment, HeaderAt, Represents;
    forall j | 0 <= j < |blocks|
      ensures HeaderAt(Write32(m, a, v))(blocks[j].addr) == HeaderAt(m)(blocks[j].addr)
    {
      if j != i {
        BlocksApart(HEADER, blocks, start, end, i, j);
      }
      HeaderUntouched(m, a, v, blocks[j].addr);
    }
    SameHeaders(HeaderAt(m), HeaderAt(Write32(m, a, v)), blocks);
  }

  /** The stores of an allocation stay inside the block they are made in. */
  lemma StoresStay(m: Memory, b: Block, skip: nat, size: nat, next: Word)
    requires Carvable(b, skip)
    ensures forall a :: a < b.addr || a >= End(HEADER, b) ==> Read32(Stores(m, b, skip, size, next), a) == Read32(m, a)
  {
    var p, nb := b.addr + skip, Behind(b, skip, size);
    var m1 := StoreFront(m, b.addr, b.size, skip, next);
    assert forall a :: a < b.addr || a >= End(HEADER, b) ==> Read32(m1, a) == Read32(m, a);
    hide StoreFront;
  }

  /** Whatever is asked for, exactly one block becomes live. */
  lemma PieceIsThere(blocks: seq<Block>, start: nat, end: nat, i: nat, size: nat, align: nat)
    requires Segment(HEADER, blocks, start, end) && i < |blocks| && align > 0 && Suits(blocks[i], size, align)
    ensures Skip(Data(blocks[i]), align) <= blocks[i].size
    ensures var x := Piece(blocks[i], Skip(Data(blocks[i]), align), size);
            && Live(Place(blocks, i, size, align)) == Live(blocks) + {x}
            && Data(x) == Data(blocks[i]) + Skip(Data(blocks[i]), align)
            && exists k :: 0 <= k < |Place(blocks, i, size, align)| && Place(blocks, i, size, align)[k] == x
  {
    hide Skip, Segment, DistinctAddresses;
    var b, skip := blocks[i], Skip(Data(blocks[i]), align);
    SkipFits(b, size, align);
    AddressesDiffer(HEADER, blocks, start, end);
    PieceAmongPlaced(b, skip, size);
    hide Placed, Piece;
    var mid, x := Placed(b, skip, size), Piece(b, skip, size);
    LiveAfterReplace(blocks, i, 1, mid);
    assert blocks[i..i + 1] == [b] && Live([b]) == {};
    var k :| 0 <= k < |mid| && mid[k] == x;
    assert Place(blocks, i, size, align)[i + k] == x;
  }

  lemma PieceAmongPlaced(b: Block, skip: nat, size: nat)
    requires skip <= b.size && (skip == 0 || skip >= HEADER + MIN_PIECE)
    ensures var mid, x := Placed(b, skip, size), Piece(b, skip, size);
            && Live(mid) == {x} && (exists k :: 0 <= k < |mid| && mid[k] == x)
            && x.addr == b.addr + skip && !x.free && (skip + size <= b.size ==> x.size >= size)
  {
    var mid, x := Placed(b, skip, size), Piece(b, skip, size);
    assert mid[if skip > 0 then 1 else 0] == x;
  }

  /** Below 2 GB no padding is negative, and the piece has the bytes that were asked for. */
  lemma PieceIsLargeEnough(b: Block, size: nat, align: nat)
    requires align > 0 && Suits(b, size, align) && Data(b) + align <= TWO31
    ensures Skip(Data(b), align) + size <= b.size && Piece(b, Skip(Data(b), align), size).size >= size
  {
    AlignUpMeans(Data(b), align);
    hide AlignUp;
    SkipFits(b, size, align);
  }

  lemma ReleaseEndsLive(blocks: seq<Block>, start: nat, end: nat, i: nat)
    requires Segment(HEADER, blocks, start, end) && i < |blocks| && !blocks[i].free
    ensures Live(Release(blocks, i)) == Live(blocks) - {blocks[i]}
  {
    AddressesDiffer(HEADER, blocks, start, end);
    hide Segment;
    var n := Joined(blocks, i);
    LiveAfterReplace(blocks, i, n, [Released(blocks, i)]);
    assert blocks[i..i + n] == if n == 2 then [blocks[i], blocks[i + 1]] else [blocks[i]];
  }

  // ---- clearing, byte by byte ------------------------------------------------

  /** The `k` lowest bytes of a word, and the word without them. */
  function Lowest(w: Word, k: int): (r: Word)
    ensures r <= w
  {
    if k <= 0 then 0
    else if k == 1 then w % 0x100
    else if k == 2 then w % 0x1_0000
    else if k == 3 then w % 0x100_0000
    else w
  }

  function Erased(w: Word, k: int): Word { w - Lowest(w, k) }

  /** A 32-bit store of 0 at `a`: the words that start up to three bytes before or behind
      share bytes with it. */
  function ZeroWord(m: Memory, a: int): Memory { ZeroBehind(ZeroBefore(m, a), a)[a := 0] }

  function ZeroBefore(m: Memory, a: int): Memory {
    Write32(Write32(Write32(m, a - 3, Lowest(Read32(m, a - 3), 3)), a - 2, Lowest(Read32(m, a - 2), 2)),
            a - 1, Lowest(Read32(m, a - 1), 1))
  }

  function ZeroBehind(m: Memory, a: int): Memory {
    Write32(Write32(Write32(m, a + 1, Erased(Read32(m, a + 1), 3)), a + 2, Erased(Read32(m, a + 2), 2)),
            a + 3, Erased(Read32(m, a + 3), 1))
  }

  /** What a store of 0 at `a` leaves of the word at `p`. */
  lemma ZeroWordAt(m: Memory, a: int, p: int)
    ensures Read32(ZeroWord(m, a), p) ==
              if p <= a - 4 || p >= a + 4 then Read32(m, p)
              else if p < a then Lowest(Read32(m, p), a - p)
              else Erased(Read32(m, p), a + 4 - p)
  {
    hide Lowest, Erased;
    NothingLeft(Read32(m, a));
  }

  lemma NothingLeft(w: Word)
    ensures Erased(w, 4) == 0
  {
  }

  function ByteOf(w: Word, j: nat): nat {
    if j == 0 then w % 0x100
    else if j == 1 then w / 0x100 % 0x100
    else if j == 2 then w / 0x1_0000 % 0x100
    else w / 0x100_0000
  }

  /** The bytes from `a` to `a + 3` are 0 in every word that they are part of, and all
      others are what they were. */
  lemma ZeroWordIsFourBytes(m: Memory, a: int, p: int, j: nat)
    requires j < 4
    ensures ByteOf(Read32(ZeroWord(m, a), p), j) == if a <= p + j < a + 4 then 0 else ByteOf(Read32(m, p), j)
  {
    hide ByteOf, Lowest, Erased, ZeroWord;
    ZeroWordAt(m, a, p);
    if a - 4 < p < a {
      LowestBytes(Read32(m, p), a - p, j);
    } else if a <= p < a + 4 {
      ErasedBytes(Read32(m, p), a + 4 - p, j);
    }
  }

  function Composed(b0: nat, b1: nat, b2: nat, b3: nat): nat { b0 + 0x100 * b1 + 0x1_0000 * b2 + 0x100_0000 * b3 }

  lemma BytesOfComposed(b0: nat, b1: nat, b2: nat, b3: nat)
    requires b0 < 0x100 && b1 < 0x100 && b2 < 0x100 && b3 < 0x100
    ensures var w := Composed(b0, b1, b2, b3);
            w < TWO32 && ByteOf(w, 0) == b0 && ByteOf(w, 1) == b1 && ByteOf(w, 2) == b2 && ByteOf(w, 3) == b3
  {
    var w, q1 := Composed(b0, b1, b2, b3), b1 + 0x100 * b2 + 0x1_0000 * b3;
    assert w == b0 + 0x100 * q1;
    assert w / 0x100 == q1;
    var q2 := b2 + 0x100 * b3;
    assert q1 == b1 + 0x100 * q2;
    assert w / 0x1_0000 == q2;
    assert w / 0x100_0000 == b3;
  }

  lemma FourBytes(w: Word)
    ensures w == Composed(ByteOf(w, 0), ByteOf(w, 1), ByteOf(w, 2), ByteOf(w, 3))
    ensures ByteOf(w, 0) < 0x100 && ByteOf(w, 1) < 0x100 && ByteOf(w, 2) < 0x100 && ByteOf(w, 3) < 0x100
  {
    var q1 := w / 0x100;
    var q2 := q1 / 0x100;
    assert w / 0x1_0000 == q2 && w / 0x100_0000 == q2 / 0x100;
  }

  lemma LowestIs(b0: nat, b1: nat, b2: nat, b3: nat)
    requires b0 < 0x100 && b1 < 0x100 && b2 < 0x100 && b3 < 0x100
    ensures var w := Composed(b0, b1, b2, b3);
            && w < TWO32 && Lowest(w, 1) == Composed(b0, 0, 0, 0) && Lowest(w, 2) == Composed(b0, b1, 0, 0)
            && Lowest(w, 3) == Composed(b0, b1, b2, 0) && Lowest(w, 4) == w
  {
    var w := Composed(b0, b1, b2, b3);
    DivisionIs(w, b1 + 0x100 * b2 + 0x1_0000 * b3, b0, 0x100);
    DivisionIs(w, b2 + 0x100 * b3, b0 + 0x100 * b1, 0x1_0000);
    DivisionIs(w, b3, b0 + 0x100 * b1 + 0x1_0000 * b2, 0x100_0000);
  }

  lemma LowestBytes(w: Word, k: nat, j: nat)
    requires 0 < k < 4 && j < 4
    ensures ByteOf(Lowest(w, k), j) == if j < k then ByteOf(w, j) else 0
  {
    hide ByteOf, Lowest, Composed;
    FourBytes(w);
    var b0, b1, b2, b3 := ByteOf(w, 0), ByteOf(w, 1), ByteOf(w, 2), ByteOf(w, 3);
    LowestIs(b0, b1, b2, b3);
    BytesOfComposed(b0, if k > 1 then b1 else 0, if k > 2 then b2 else 0, 0);
  }

  lemma ComposedRests(b0: nat, b1: nat, b2: nat, b3: nat)
    ensures var w := Composed(b0, b1, b2, b3);
            && w - Composed(b0, 0, 0, 0) == Composed(0, b1, b2, b3)
            && w - Composed(b0, b1, 0, 0) == Composed(0, 0, b2, b3)
            && w - Composed(b0, b1, b2, 0) == Composed(0, 0, 0, b3) && w - w == Composed(0, 0, 0, 0)
  {
  }

  lemma ErasedBytes(w: Word, k: int, j: nat)
    requires 0 < k <= 4 && j < 4
    ensures ByteOf(Erased(w, k), j) == if j < k then 0 else ByteOf(w, j)
  {
    hide ByteOf, Lowest, Composed;
    FourBytes(w);
    var b0, b1, b2, b3 := ByteOf(w, 0), ByteOf(w, 1), ByteOf(w, 2), ByteOf(w, 3);
    LowestIs(b0, b1, b2, b3);
    ComposedRests(b0, b1, b2, b3);
    BytesOfComposed(0, if k > 1 then 0 else b1, if k > 2 then 0 else b2, if k > 3 then 0 else b3);
  }

  /** The words before `data` are as they were, those from there on have lost their bytes
      below `end`. */
  ghost predicate Wiped(m: Memory, m': Memory, data: nat, end: nat) {
    && (forall p :: p + 4 <= data ==> Read32(m', p) == Read32(m, p))
    && (forall p :: p >= data ==> Read32(m', p) == Erased(Read32(m, p), end - p))
  }

  lemma NothingWiped(m: Memory, data: nat)
    ensures Wiped(m, m, data, data)
  {
  }

  lemma WipeMore(m: Memory, m': Memory, data: nat, end: nat)
    requires Wiped(m, m', data, end) && data <= end
    ensures Wiped(m, ZeroWord(m', end), data, end + 4)
  {
    hide ZeroWord, Lowest, Erased, Read32;
    var m'' := ZeroWord(m', end);
    forall p | p + 4 <= data ensures Read32(m'', p) == Read32(m, p) {
      ZeroWordAt(m', end, p);
    }
    forall p | p >= data ensures Read32(m'', p) == Erased(Read32(m, p), end + 4 - p) {
      ZeroWordAt(m', end, p);
      ErasedTwice(Read32(m, p), end - p);
      ErasedTwice(Read32(m, p), end + 4 - p);
    }
  }

  lemma ErasedTwice(w: Word, k: int)
    ensures k <= 0 ==> Erased(w, k) == w
    ensures k >= 4 ==> Erased(w, k) == 0
    ensures Lowest(Erased(w, k), k) == 0
  {
    if 0 < k < 4 {
      WithoutRest(w, 0x100);
      WithoutRest(w, 0x1_0000);
      WithoutRest(w, 0x100_0000);
    }
  }

  lemma WithoutRest(w: nat, n: nat)
    requires n > 0
    ensures (w - w % n) % n == 0
  {
    Division(w, n);
    MultipleHasNoRest(w / n, n);
  }

  /** `size` rounded up to whole words. */
  function WholeWords(size: nat): (n: nat)
    ensures size <= n < size + 4
    ensures OnWord(size) ==> n == size
  {
    (size + 3) / 4 * 4
  }

  predicate OnWord(x: int) { x % 4 == 0 }

  /** The words at the multiples of 4 from `data` up to `data + n` are 0. */
  ghost predicate Cleared(m: Memory, data: nat, n: nat) {
    forall a :: data <= a < data + n && OnWord(a - data) ==> Read32(m, a) == 0
  }

  lemma WipedIsCleared(m: Memory, m': Memory, data: nat, size: nat)
    requires Wiped(m, m', data, data + WholeWords(size))
    ensures Cleared(m', data, size)
  {
    forall a | data <= a < data + size && OnWord(a - data) ensures Read32(m', a) == 0 {
      assert a + 4 <= data + WholeWords(size);
    }
  }

  function HeaderErased(m: Memory, p: nat, end: nat): Header {
    Header(Erased(Read32(m, p), end - p), Erased(Read32(m, p + 8), end - p - 8),
           Erased(Read32(m, p + 12), end - p - 12) != 0)
  }

  /** The headers from `data` on are the same without their bytes below `end`. */
  ghost predicate Unharmed(m: Memory, blocks: seq<Block>, data: nat, end: nat) {
    forall j :: 0 <= j < |blocks| && blocks[j].addr >= data ==>
      HeaderErased(m, blocks[j].addr, end) == HeaderAt(m)(blocks[j].addr)
  }

  lemma HeaderWiped(m: Memory, m': Memory, data: nat, end: nat, p: nat)
    requires Wiped(m, m', data, end)
    ensures p + HEADER <= data ==> HeaderAt(m')(p) == HeaderAt(m)(p)
    ensures p >= data ==> HeaderAt(m')(p) == HeaderErased(m, p, end)
  {
    hide Lowest, Erased, Read32;
  }

  /** Wiping from the data of a block on keeps the list exactly if no header is harmed. */
  lemma WipedHeaders(m: Memory, m': Memory, blocks: seq<Block>, start: nat, stop: nat, i: nat, end: nat)
    requires Segment(HEADER, blocks, start, stop) && i < |blocks| && Represents(HeaderAt(m), blocks)
    requires Wiped(m, m', Data(blocks[i]), end)
    ensures Represents(HeaderAt(m'), blocks) <==> Unharmed(m, blocks, Data(blocks[i]), end)
  {
    hide Segment, HeaderAt, HeaderErased, Wiped;
    var data := Data(blocks[i]);
    forall j | 0 <= j < |blocks|
      ensures blocks[j].addr >= data || blocks[j].addr + HEADER <= data
      ensures HeaderAt(m')(blocks[j].addr) ==
                if blocks[j].addr >= data then HeaderErased(m, blocks[j].addr, end) else HeaderAt(m)(blocks[j].addr)
    {
      if j != i {
        BlocksApart(HEADER, blocks, start, stop, i, j);
      }
      HeaderWiped(m, m', data, end, blocks[j].addr);
    }
    if Represents(HeaderAt(m'), blocks) {
      forall j | 0 <= j < |blocks| && blocks[j].addr >= data
        ensures HeaderErased(m, blocks[j].addr, end) == HeaderAt(m)(blocks[j].addr)
      {
        RepresentedAt(HeaderAt(m), blocks, j);
        RepresentedAt(HeaderAt(m'), blocks, j);
      }
    }
  }

  /** How many bytes of the block behind block `k` the clearing of `size` bytes reaches. */
  function Overrun(blocks: seq<Block>, k: nat, size: nat): int
    requires k + 1 < |blocks|
  {
    Data(blocks[k]) + WholeWords(size) - blocks[k + 1].addr
  }

  /** Clearing whole words of a piece that has the bytes keeps all headers exactly if it
      ends before the next block, or the bytes of its size that are lost are 0. */
  lemma ClearingIsSafeIff(m: Memory, blocks: seq<Block>, start: nat, stop: nat, k: nat, size: nat)
    requires Segment(HEADER, blocks, start, stop) && k < |blocks| && Represents(HeaderAt(m), blocks)
    requires size <= blocks[k].size
    ensures Unharmed(m, blocks, Data(blocks[k]), Data(blocks[k]) + WholeWords(size)) <==>
            (k + 1 < |blocks| ==> Lowest(blocks[k + 1].size, Overrun(blocks, k, size)) == 0)
    ensures OnWord(size) && k + 1 < |blocks| ==> Overrun(blocks, k, size) <= 0
  {
    hide Segment, Represents, HeaderAt, HeaderErased, Lowest;
    var data, end := Data(blocks[k]), Data(blocks[k]) + WholeWords(size);
    if k + 1 < |blocks| {
      BlocksApart(HEADER, blocks, start, stop, k, k + 1);
      AddressOrder(HEADER, blocks, start, stop, k, k + 1);
      RepresentedAt(HeaderAt(m), blocks, k + 1);
      NextErased(m, blocks[k + 1].addr, end);
    }
    forall j | 0 <= j < |blocks| && blocks[j].addr >= data && j != k + 1
      ensures HeaderErased(m, blocks[j].addr, end) == HeaderAt(m)(blocks[j].addr)
    {
      if j < k {
        AddressOrder(HEADER, blocks, start, stop, j, k);
      } else if j > k {
        AddressOrder(HEADER, blocks, start, stop, k + 1, j);
      }
      NextErased(m, blocks[j].addr, end);
    }
  }

  lemma NextErased(m: Memory, p: nat, end: nat)
    requires end <= p + 8
    ensures HeaderErased(m, p, end) == HeaderAt(m)(p) <==> Lowest(HeaderAt(m)(p).size, end - p) == 0
    ensures end <= p ==> HeaderErased(m, p, end) == HeaderAt(m)(p)
  {
  }

  /** All sums that the walk forms stay below 2 GB. */
  predicate Below2GB(base: nat, align: nat) { base + ARENA_SIZE + align <= TWO31 }

  lemma SkipIs(data: nat, align: nat)
    requires align > 0
    ensures Skip(data, align) == if Padding(data, align) >= HEADER + MIN_PIECE then Padding(data, align) else 0
  {
  }

  lemma StoresAre(m: Memory, b: Block, skip: nat, size: nat, next: Word)
    requires Carvable(b, skip)
    ensures Stores(m, b, skip, size, next) ==
            StoreBack(StoreFront(m, b.addr, b.size, skip, next), b.addr + skip, size, b.size - skip, next)
  {
  }

  /** The index of the piece among the new blocks. */
  lemma NewPiece(blocks: seq<Block>, start: nat, end: nat, i: nat, size: nat, align: nat) returns (k: nat)
    requires Segment(HEADER, blocks, start, end) && i < |blocks| && align > 0 && Suits(blocks[i], size, align)
    ensures k < |Place(blocks, i, size, align)|
    ensures var x := Place(blocks, i, size, align)[k];
            && !x.free && Data(x) == Data(blocks[i]) + Skip(Data(blocks[i]), align)
            && blocks[i].addr <= x.addr && End(HEADER, x) <= End(HEADER, blocks[i])
            && (end + align <= TWO31 ==> x.size >= size)
  {
    hide Segment, Skip, Place;
    PieceIsThere(blocks, start, end, i, size, align);
    InSegment(HEADER, blocks, start, end, i);
    var x := Piece(blocks[i], Skip(Data(blocks[i]), align), size);
    if end + align <= TWO31 {
      PieceIsLargeEnough(blocks[i], size, align);
    }
    k :| 0 <= k < |Place(blocks, i, size, align)| && Place(blocks, i, size, align)[k] == x;
  }

  /** Whole words that are cleared stay inside the block the piece was carved out of. */
  lemma ClearingStays(m: Memory, m': Memory, b: Block, x: Block, size: nat)
    requires OnWord(size) && size <= x.size && b.addr <= x.addr && End(HEADER, x) <= End(HEADER, b)
    requires Wiped(m, m', Data(x), Data(x) + WholeWords(size))
    ensures SameOutside(b, m, m')
  {
    forall a | a < b.addr || a >= End(HEADER, b) ensures Read32(m', a) == Read32(m, a) {
      ErasedTwice(Read32(m, a), Data(x) + WholeWords(size) - a);
    }
  }

  /** Thirteen cleared bytes of a fresh arena: the last store reaches three bytes into the
      header behind the piece, and the size of the rest of the arena becomes 0. */
  lemma ThirteenBytesHarm(m: Memory, base: nat)
    requires base % 16 == 0 && 0 < base && base + ARENA_SIZE + 16 <= TWO31
    requires Represents(HeaderAt(m), Place([Block(base, ARENA_SIZE - HEADER, true, 0)], 0, 13, 16))
    ensures var b := Block(base, ARENA_SIZE - HEADER, true, 0);
            var after, ptr := Place([b], 0, 13, 16), base + HEADER;
            && Suits(b, 13, 16) && Carved([b], 0, 13, 16, after, ptr, 1)
            && |after| == 2 && after[1] == Block(ptr + 13, ARENA_SIZE - 61, true, 16)
            && HeaderErased(m, after[1].addr, ptr + WholeWords(13)).size == 0
            && !Unharmed(m, after, ptr, ptr + WholeWords(13))
  {
    hide Represents, HeaderAt, Skip, Padding, Place, HeaderErased;
    ThirteenBytesPlaced(base);
    var b := Block(base, ARENA_SIZE - HEADER, true, 0);
    var after := Place([b], 0, 13, 16);
    RepresentedAt(HeaderAt(m), after, 1);
    FirstWord(m, after[1].addr, base + HEADER + 16);
  }

  lemma ThirteenBytesPlaced(base: nat)
    requires base % 16 == 0 && 0 < base && base + ARENA_SIZE + 16 <= TWO31
    ensures var b, data := Block(base, ARENA_SIZE - HEADER, true, 0), base + HEADER;
            && Padding(data, 16) == 0 && Skip(data, 16) == 0
            && Place([b], 0, 13, 16) == [Block(base, 13, false, 0), Block(data + 13, ARENA_SIZE - 61, true, 16)]
  {
    hide Skip, Padding;
    NoSkip(base + HEADER);
  }

  lemma NoSkip(data: nat)
    requires data % 16 == 0 && 0 < data && data + 16 <= TWO31
    ensures Padding(data, 16) == 0 && Skip(data, 16) == 0
  {
    hide AlignUp;
    AlignUpMeans(data, 16);
    MultipleOfSixteen(data, AlignUp(data, 16));
  }

  lemma MultipleOfSixteen(x: int, y: int)
    requires x % 16 == 0 && MultipleOf(y, 16) && x <= y < x + 16
    ensures x == y
  {
  }

  lemma FirstWord(m: Memory, p: nat, end: nat)
    ensures HeaderErased(m, p, end).size == HeaderAt(m)(p).size - Lowest(HeaderAt(m)(p).size, end - p)
  {
  }

  /** Block `i` suits and is replaced as `Placed` says; `ptr` is the data of the piece and
      `splits` counts the split behind it. */
  ghost predicate Carved(before: seq<Block>, i: nat, size: nat, align: nat, after: seq<Block>, ptr: nat, splits: int) {
    && i < |before| && align > 0 && Suits(before[i], size, align)
    && var skip := Skip(Data(before[i]), align);
       && after == Place(before, i, size, align) && ptr == Data(before[i]) + skip
       && splits == if SplitsBehind(before[i], skip, size) then 1 else 0
  }

  /** The memories differ at most in the block, header included. */
  ghost predicate SameOutside(b: Block, m: Memory, m': Memory) {
    forall a :: a < b.addr || a >= End(HEADER, b) ==> Read32(m', a) == Read32(m, a)
  }

  lemma SameOutsideTwice(b: Block, m: Memory, m': Memory, m'': Memory)
    requires SameOutside(b, m, m') && SameOutside(b, m', m'')
    ensures SameOutside(b, m, m'')
  {
  }

  lemma CarvedMeans(before: seq<Block>, i: nat, size: nat, align: nat, after: seq<Block>, ptr: nat, splits: int)
    requires Carved(before, i, size, align, after, ptr, splits)
    ensures i < |before| && align > 0 && Suits(before[i], size, align)
    ensures after == Place(before, i, size, align) && ptr == Data(before[i]) + Skip(Data(before[i]), align)
  {
  }

  class Arena {
    const base: nat
    var mem: Memory
    ghost var blocks: seq<Block>
    ghost var trailingSplits: nat

    ghost predicate Valid()
      reads this
    {
      && 0 < base && base + ARENA_SIZE < TWO31
      && Segment(HEADER, blocks, base, base + ARENA_SIZE) && blocks != []
      && Represents(HeaderAt(mem), blocks)
      && GapBytes(blocks) == MIN_PIECE * trailingSplits
    }

    constructor (base: nat, mem: Memory)
      requires 0 < base && base + ARENA_SIZE < TWO31
      ensures Valid() && this.base == base && trailingSplits == 0
      ensures blocks == [Block(base, ARENA_SIZE - HEADER, true, 0)]
    {
      this.base := base;
      this.mem := WriteBlock(mem, base, ARENA_SIZE - HEADER, 0, 1);
      blocks := [Block(base, ARENA_SIZE - HEADER, true, 0)];
      trailingSplits := 0;
      new;
      OneBlock(HEADER, blocks[0]);
      BlockWritten(mem, base, ARENA_SIZE - HEADER, 0, 1, base);
    }

    lemma DataBelow2GB(i: nat)
      requires Valid() && i < |blocks|
      ensures 0 < Data(blocks[i]) <= base + ARENA_SIZE < TWO31 && Data(blocks[i]) >= base + HEADER
      ensures blocks[i].size < TWO31
    {
      InSegment(HEADER, blocks, base, base + ARENA_SIZE, i);
    }

    /** The walk: the first free block with room for the padding and the size. */
    method FindFit(size: nat, align: nat) returns (block: nat, ghost i: nat)
      requires Valid() && align > 0
      ensures i <= |blocks| && block == (if i < |blocks| then blocks[i].addr else 0)
      ensures i < |blocks| ==> block != 0 && Suits(blocks[i], size, align)
      ensures forall j :: 0 <= j < i ==> !Suits(blocks[j], size, align)
    {
      hide HeaderAt, Represents, Padding, GapBytes, Segment;
      block := base;
      i := 0;
      InSegment(HEADER, blocks, base, base + ARENA_SIZE, 0);
      while block != 0 && !(HeaderAt(mem)(block).free &&
                            HeaderAt(mem)(block).size >= Padding(block + HEADER, align) + size)
        invariant i <= |blocks| && block == (if i < |blocks| then blocks[i].addr else 0)
        invariant forall j :: 0 <= j < i ==> !Suits(blocks[j], size, align)
        decreases |blocks| - i
      {
        RepresentedAt(HeaderAt(mem), blocks, i);
        if i + 1 < |blocks| {
          InSegment(HEADER, blocks, base, base + ARENA_SIZE, i + 1);
        }
        block := HeaderAt(mem)(block).next;
        i := i + 1;
      }
      if i < |blocks| {
        InSegment(HEADER, blocks, base, base + ARENA_SIZE, i);
        RepresentedAt(HeaderAt(mem), blocks, i);
      }
    }

    /** Stores zeros over `size` bytes from the data of block `i` on, in whole words. */
    method Zero(data: nat, size: nat, ghost i: nat)
      requires Valid() && i < |blocks| && data == Data(blocks[i])
      modifies `mem
      ensures Wiped(old(mem), mem, data, data + WholeWords(size)) && Cleared(mem, data, size)
      ensures Valid() <==> Unharmed(old(mem), blocks, data, data + WholeWords(size))
    {
      hide HeaderAt, Represents, Segment, GapBytes, Wiped, ZeroWord, Unharmed, Cleared;
      NothingWiped(mem, data);
      var o := 0;
      while o < size
        invariant 0 <= o <= WholeWords(size) && OnWord(o)
        invariant Wiped(old(mem), mem, data, data + o)
      {
        WipeMore(old(mem), mem, data, data + o);
        mem := ZeroWord(mem, data + o);
        o := o + 4;
      }
      WipedIsCleared(old(mem), mem, data, size);
      WipedHeaders(old(mem), mem, blocks, base, base + ARENA_SIZE, i, data + WholeWords(size));
    }

    /** The header stores of an allocation in block `i`, whose header is at `block`. */
    method Carve(block: nat, size: nat, align: nat, ghost i: nat) returns (ptr: nat)
      requires Valid() && align > 0
      requires i < |blocks| && Suits(blocks[i], size, align) && block == blocks[i].addr
      modifies `mem, `blocks, `trailingSplits
      ensures Valid() && ptr != 0
      ensures Carved(old(blocks), i, size, align, blocks, ptr, trailingSplits - old(trailingSplits))
      ensures SameOutside(old(blocks)[i], old(mem), mem)
    {
      hide HeaderAt, Represents, Segment, GapBytes, Place, Skip, Suits, Padding, SplitsBehind, Stores;
      ghost var b := blocks[i];
      RepresentedAt(HeaderAt(mem), blocks, i);
      PlaceKeepsTiles(blocks, base, base + ARENA_SIZE, i, size, align);
      PlacedStores(mem, blocks, base, base + ARENA_SIZE, i, size, align);
      var available, oldNext := HeaderAt(mem)(block).size, HeaderAt(mem)(block).next;
      SkipIs(block + HEADER, align);
      var padding := Padding(block + HEADER, align);
      var skip := if padding >= HEADER + MIN_PIECE then padding else 0;
      StoresStay(mem, b, skip, size, oldNext);
      StoresAre(mem, b, skip, size, oldNext);
      mem := StoreFront(mem, block, available, skip, oldNext);
      mem := StoreBack(mem, block + skip, size, available - skip, oldNext);
      trailingSplits := trailingSplits + (if SplitsBehind(b, skip, size) then 1 else 0);
      blocks := Place(blocks, i, size, align);
      ptr := block + skip + HEADER;
    }

    /** First fit: a piece of the first block with room for padding and size, split off in
        front and behind; `carved` is the memory then, in which nothing outside that block
        was written. Any power of two may be asked for; the address is aligned exactly as
        `AlignedIff` says. Clearing leaves the arena valid exactly if it harms no header. */
    method Alloc(size: nat, align: nat, zero: bool) returns (ptr: nat, ghost i: nat, ghost carved: Memory)
      requires Valid() && PowerOfTwo(align)
      modifies `mem, `blocks, `trailingSplits
      ensures forall j :: 0 <= j < i <= |old(blocks)| ==> !Suits(old(blocks)[j], size, align)
      ensures ptr == 0 <==> i == |old(blocks)|
      ensures ptr == 0 ==> blocks == old(blocks) && mem == old(mem) && trailingSplits == old(trailingSplits)
      ensures ptr != 0 ==>
                Carved(old(blocks), i, size, align, blocks, ptr, trailingSplits - old(trailingSplits))
      ensures ptr != 0 ==> SameOutside(old(blocks)[i], old(mem), carved)
      ensures ptr != 0 ==>
                (MultipleOf(ptr, align) <==>
                 Data(old(blocks)[i]) + align <= TWO31 && (align >= 32 || MultipleOf(Data(old(blocks)[i]), align)))
      ensures ptr == 0 || !zero ==> Valid() && mem == carved
      ensures ptr != 0 && zero ==> Wiped(carved, mem, ptr, ptr + WholeWords(size)) && Cleared(mem, ptr, size)
      ensures ptr != 0 && zero ==> (Valid() <==> Unharmed(carved, blocks, ptr, ptr + WholeWords(size)))
      ensures ptr != 0 ==> Represents(HeaderAt(carved), blocks)
    {
      hide Carved, SameOutside, Skip, PowerOfTwo, MultipleOf, HeaderAt, Represents, Segment, GapBytes, Place, Cleared;
      hide Suits, Padding, End, OnWord, Wiped, Unharmed;
      FromSixteen(align);
      carved := mem;
      var block;
      block, i := FindFit(size, align);
      if block == 0 {
        ptr := 0;
        return;
      }
      DataBelow2GB(i);
      SkipFits(blocks[i], size, align);
      AlignedIff(Data(blocks[i]), align);
      ptr := Carve(block, size, align, i);
      CarvedMeans(old(blocks), i, size, align, blocks, ptr, trailingSplits - old(trailingSplits));
      carved := mem;
      if zero {
        ghost var k := NewPiece(old(blocks), base, base + ARENA_SIZE, i, size, align);
        Zero(ptr, size, k);
      }
    }

    /** Releases the block whose data starts at `ptr`; only its header is written. */
    method Free(ptr: nat, ghost i: nat)
      requires Valid()
      requires ptr != 0 ==> i < |blocks| && !blocks[i].free && ptr == Data(blocks[i])
      modifies `mem, `blocks
      ensures Valid()
      ensures blocks == if ptr == 0 then old(blocks) else Release(old(blocks), i)
      ensures forall a :: ptr == 0 || a < ptr - HEADER || a >= ptr ==> Read32(mem, a) == Read32(old(mem), a)
    {
      hide HeaderAt, Represents, Segment, GapBytes, Release, WriteBlock, OnBoundaries;
      if ptr == 0 {
        return;
      }
      ReleaseKeepsTiles(blocks, base, base + ARENA_SIZE, i);
      var block := ptr - HEADER;
      FreeHeaders(block, i);
      blocks := Release(blocks, i);
    }

    /** The stores of a release: the free mark, then the joined header if there is one. */
    method FreeHeaders(block: nat, ghost i: nat)
      requires Valid() && i < |blocks| && block == blocks[i].addr
      modifies `mem
      ensures Represents(HeaderAt(mem), Release(blocks, i))
      ensures forall a :: a < block || a >= block + HEADER ==> Read32(mem, a) == Read32(old(mem), a)
    {
      hide HeaderAt, Represents, Segment, GapBytes, Release, NextAddr, Released, Joined, WriteBlock, Write32, Read32;
      ReleaseReads(mem, blocks, base, base + ARENA_SIZE, i, block);
      FreeStays(mem, block);
      mem := Write32(mem, block + 12, 1);
      var h := HeaderAt(mem)(block);
      var n := HeaderAt(mem)(h.next);
      if h.next != 0 && n.free && block + HEADER + h.size == h.next {
        JoinStays(mem, block, h.size + HEADER + n.size, n.next);
        mem := WriteBlock(mem, block, h.size + HEADER + n.size, n.next, 1);
      }
      ReleasedStores(old(mem), mem, blocks, base, base + ARENA_SIZE, i);
    }
  }

  // ---- runs ------------------------------------------------------------------

  datatype Call =
    | Allocate(size: nat, align: nat, zero: bool)
    | GiveBack(ptr: nat)
    | Store(ptr: nat, offset: nat, value: Word)

  /** What a client asked for and got: `size` bytes, aligned to `align`. */
  datatype Grant = Grant(size: nat, align: nat)

  ghost predicate Lives(blocks: seq<Block>, p: nat, size: nat) {
    exists b :: b in Live(blocks) && Data(b) == p && b.size >= size
  }

  /** The clients hold exactly the data of the used blocks. */
  ghost predicate Holds(blocks: seq<Block>, held: map<nat, Grant>) {
    && (forall p :: p in held ==> Lives(blocks, p, held[p].size))
    && (forall b :: b in Live(blocks) ==> Data(b) in held)
  }

  /** Held pieces are aligned as asked for, at least those with large alignments. */
  ghost predicate Aligned(held: map<nat, Grant>, regular: bool) {
    forall p :: p in held && (regular || held[p].align >= 32) ==> MultipleOf(p, held[p].align)
  }

  ghost predicate InLiveData(blocks: seq<Block>, a: int) {
    exists b :: b in Live(blocks) && Data(b) <= a < End(HEADER, b)
  }

  /** The words the clients stored and have not given back are still there. */
  ghost predicate Keeps(m: Memory, blocks: seq<Block>, stored: map<int, Word>) {
    forall a :: a in stored ==> InLiveData(blocks, a) && Read32(m, a) == stored[a]
  }

  lemma LiveIsOther(blocks: seq<Block>, start: nat, end: nat, i: nat, b: Block)
    requires Segment(HEADER, blocks, start, end) && i < |blocks| && b in Live(blocks) && b != blocks[i]
    ensures End(HEADER, b) <= blocks[i].addr || End(HEADER, blocks[i]) <= b.addr
  {
    var j :| 0 <= j < |blocks| && blocks[j] == b;
    BlocksApart(HEADER, blocks, start, end, i, j);
  }

  lemma PlaceKeepsStored(m: Memory, m': Memory, blocks: seq<Block>, after: seq<Block>, start: nat, end: nat,
                         i: nat, x: Block, stored: map<int, Word>)
    requires Segment(HEADER, blocks, start, end) && i < |blocks| && blocks[i].free
    requires Keeps(m, blocks, stored) && Live(after) == Live(blocks) + {x}
    requires SameOutside(blocks[i], m, m')
    ensures Keeps(m', after, stored)
  {
    hide Segment, Read32;
    forall a | a in stored ensures InLiveData(after, a) && Read32(m', a) == stored[a] {
      assert InLiveData(blocks, a);
      var b :| b in Live(blocks) && Data(b) <= a < End(HEADER, b);
      LiveIsOther(blocks, start, end, i, b);
      assert b in Live(after);
    }
  }

  lemma ReleaseKeepsStored(m: Memory, m': Memory, blocks: seq<Block>, after: seq<Block>, start: nat, end: nat,
                           i: nat, stored: map<int, Word>, left: map<int, Word>)
    requires Segment(HEADER, blocks, start, end) && i < |blocks|
    requires Keeps(m, blocks, stored) && Live(after) == Live(blocks) - {blocks[i]}
    requires forall a :: a < blocks[i].addr || a >= Data(blocks[i]) ==> Read32(m', a) == Read32(m, a)
    requires forall a :: a in left ==>
               a in stored && left[a] == stored[a] && !(Data(blocks[i]) <= a < End(HEADER, blocks[i]))
    ensures Keeps(m', after, left)
  {
    hide Segment, Read32;
    forall a | a in left ensures InLiveData(after, a) && Read32(m', a) == left[a] {
      assert InLiveData(blocks, a);
      var b :| b in Live(blocks) && Data(b) <= a < End(HEADER, b);
      LiveIsOther(blocks, start, end, i, b);
      assert b in Live(after);
    }
  }

  lemma PlaceKeepsHeld(blocks: seq<Block>, after: seq<Block>, x: Block, size: nat, align: nat, held: map<nat, Grant>)
    requires Holds(blocks, held) && Live(after) == Live(blocks) + {x} && x.size >= size
    ensures Holds(after, held[Data(x) := Grant(size, align)])
  {
    var now := held[Data(x) := Grant(size, align)];
    forall p | p in now ensures Lives(after, p, now[p].size) {
      if p == Data(x) {
        assert x in Live(after);
      } else {
        var b :| b in Live(blocks) && Data(b) == p && b.size >= held[p].size;
        assert b in Live(after);
      }
    }
  }

  lemma ReleaseKeepsHeld(blocks: seq<Block>, after: seq<Block>, start: nat, end: nat, i: nat, held: map<nat, Grant>)
    requires Segment(HEADER, blocks, start, end) && i < |blocks|
    requires Holds(blocks, held) && Live(after) == Live(blocks) - {blocks[i]}
    ensures Holds(after, held - {Data(blocks[i])})
  {
    hide Segment;
    var now: map<nat, Grant> := held - {Data(blocks[i])};
    forall p | p in now ensures Lives(after, p, now[p].size) {
      var b :| b in Live(blocks) && Data(b) == p && b.size >= held[p].size;
      assert b in Live(after);
    }
    forall b | b in Live(after) ensures Data(b) in now {
      LiveIsOther(blocks, start, end, i, b);
    }
  }

  /** The block a held pointer belongs to. */
  lemma HeldBlock(blocks: seq<Block>, p: nat, size: nat) returns (i: nat)
    requires Lives(blocks, p, size)
    ensures i < |blocks| && blocks[i] in Live(blocks) && !blocks[i].free
    ensures Data(blocks[i]) == p && blocks[i].size >= size
  {
    var b :| b in Live(blocks) && Data(b) == p && b.size >= size;
    i :| 0 <= i < |blocks| && blocks[i] == b;
  }

  /** What two clients hold never overlaps, and lies in the arena behind the headers. */
  lemma HeldApart(blocks: seq<Block>, start: nat, end: nat, held: map<nat, Grant>, p: nat, q: nat)
    requires Segment(HEADER, blocks, start, end) && Holds(blocks, held) && p in held && q in held && p != q
    ensures p + held[p].size <= q - HEADER || q + held[q].size <= p - HEADER
    ensures start + HEADER <= p && p + held[p].size <= end
  {
    hide Segment, Holds;
    HeldLives(blocks, held, p);
    HeldLives(blocks, held, q);
    var i := HeldBlock(blocks, p, held[p].size);
    var j := HeldBlock(blocks, q, held[q].size);
    BlocksApart(HEADER, blocks, start, end, i, j);
    InSegment(HEADER, blocks, start, end, i);
  }

  lemma NothingHeld(m: Memory, blocks: seq<Block>)
    requires Live(blocks) == {}
    ensures Holds(blocks, map[]) && Keeps(m, blocks, map[])
  {
  }

  /** The requests the arena is made for: any size, any power of two with which all sums
      stay below 2 GB, and clearing in whole words. */
  predicate Served(base: nat, c: Call) {
    c.Allocate? ==> PowerOfTwo(c.align) && Below2GB(base, c.align) && (c.zero ==> OnWord(c.size))
  }

  predicate KeepsBoundaries(c: Call) { c.Allocate? ==> Regular(c.size, c.align) }

  /** Any run of allocations, releases of what was allocated and stores of the clients
      into what they hold. With sizes that are multiples of 16 and alignments of at least
      16 every held piece is aligned; without, those with alignments from 32 on are. */
  method Serve(arena: Arena, calls: seq<Call>) returns (held: map<nat, Grant>, ghost stored: map<int, Word>)
    requires arena.Valid() && Live(arena.blocks) == {}
    requires forall c :: c in calls ==> Served(arena.base, c)
    modifies arena
    ensures arena.Valid() && Holds(arena.blocks, held) && Keeps(arena.mem, arena.blocks, stored)
    ensures Aligned(held, OnBoundaries(old(arena.blocks)) && forall c :: c in calls ==> KeepsBoundaries(c))
    ensures forall p, q :: p in held && q in held && p != q ==> p + held[p].size <= q || q + held[q].size <= p
    ensures UsedBytes(arena.blocks) + FreeBytes(arena.blocks) + HEADER * |arena.blocks| ==
            ARENA_SIZE - 16 * arena.trailingSplits
  {
    hide Holds, Keeps, HeaderAt, Represents, Segment, GapBytes, OnBoundaries, Served, KeepsBoundaries, MultipleOf;
    held, stored := map[], map[];
    NothingHeld(arena.mem, arena.blocks);
    ghost var regular := OnBoundaries(arena.blocks) && forall c :: c in calls ==> KeepsBoundaries(c);
    for k := 0 to |calls|
      invariant arena.Valid() && Holds(arena.blocks, held) && Keeps(arena.mem, arena.blocks, stored)
      invariant Aligned(held, regular) && (regular ==> OnBoundaries(arena.blocks))
    {
      held, stored := Step(arena, calls[k], held, stored, regular);
    }
    Accounting(HEADER, arena.blocks, arena.base, arena.base + ARENA_SIZE);
    forall p, q | p in held && q in held && p != q ensures p + held[p].size <= q || q + held[q].size <= p {
      HeldApart(arena.blocks, arena.base, arena.base + ARENA_SIZE, held, p, q);
    }
  }

  method Step(arena: Arena, call: Call, held: map<nat, Grant>, ghost stored: map<int, Word>, ghost regular: bool)
    returns (held': map<nat, Grant>, ghost stored': map<int, Word>)
    requires arena.Valid() && Holds(arena.blocks, held) && Keeps(arena.mem, arena.blocks, stored)
    requires Served(arena.base, call) && Aligned(held, regular)
    requires regular ==> OnBoundaries(arena.blocks) && KeepsBoundaries(call)
    modifies arena
    ensures arena.Valid() && Holds(arena.blocks, held') && Keeps(arena.mem, arena.blocks, stored')
    ensures Aligned(held', regular) && (regular ==> OnBoundaries(arena.blocks))
  {
    match call
    case Allocate(size, align, zero) =>
      held', stored' := StepAllocate(arena, size, align, zero, held, stored, regular);
    case GiveBack(ptr) =>
      held', stored' := StepGiveBack(arena, ptr, held, stored, regular);
    case Store(ptr, offset, value) =>
      stored' := StepStore(arena, ptr, offset, value, held, stored);
      held' := held;
  }

  method StepAllocate(arena: Arena, size: nat, align: nat, zero: bool, held: map<nat, Grant>,
                      ghost stored: map<int, Word>, ghost regular: bool)
    returns (held': map<nat, Grant>, ghost stored': map<int, Word>)
    requires arena.Valid() && Holds(arena.blocks, held) && Keeps(arena.mem, arena.blocks, stored)
    requires Served(arena.base, Allocate(size, align, zero)) && Aligned(held, regular)
    requires regular ==> OnBoundaries(arena.blocks) && Regular(size, align)
    modifies arena
    ensures arena.Valid() && Holds(arena.blocks, held') && Keeps(arena.mem, arena.blocks, stored')
    ensures Aligned(held', regular) && (regular ==> OnBoundaries(arena.blocks))
  {
    hide Holds, Keeps, HeaderAt, Represents, Segment, GapBytes, OnBoundaries, MultipleOf, Regular;
    hide Place, Piece, Skip, Suits, Padding, PowerOfTwo, SplitsBehind, OnWord, Carved, SameOutside, Cleared;
    hide Wiped, Unharmed;
    held', stored' := held, stored;
    ghost var before, m := arena.blocks, arena.mem;
    var ptr, i, carved := arena.Alloc(size, align, zero);
    if ptr != 0 {
      CarvedMeans(before, i, size, align, arena.blocks, ptr, arena.trailingSplits - old(arena.trailingSplits));
      FromSixteen(align);
      InSegment(HEADER, before, arena.base, arena.base + ARENA_SIZE, i);
      if zero {
        ClearedSafely(before, arena.blocks, arena.base, i, size, align, ptr, m, carved, arena.mem);
      }
      PieceIsThere(before, arena.base, arena.base + ARENA_SIZE, i, size, align);
      PieceIsLargeEnough(before[i], size, align);
      ghost var x := Piece(before[i], Skip(Data(before[i]), align), size);
      PlaceKeepsHeld(before, arena.blocks, x, size, align, held);
      PlaceKeepsStored(m, arena.mem, before, arena.blocks, arena.base, arena.base + ARENA_SIZE, i, x, stored);
      if regular {
        RegularAlign(size, align);
        PlaceKeepsBoundaries(before, arena.base, arena.base + ARENA_SIZE, i, size, align);
      }
      held' := held[ptr := Grant(size, align)];
    }
  }

  /** Clearing whole words of a fresh piece below 2 GB harms nothing. */
  lemma ClearedSafely(before: seq<Block>, after: seq<Block>, base: nat, i: nat, size: nat, align: nat, ptr: nat,
                      m: Memory, carved: Memory, m': Memory)
    requires Segment(HEADER, before, base, base + ARENA_SIZE) && i < |before| && align > 0
    requires Suits(before[i], size, align) && OnWord(size) && Below2GB(base, align)
    requires after == Place(before, i, size, align) && ptr == Data(before[i]) + Skip(Data(before[i]), align)
    requires Represents(HeaderAt(carved), after)
    requires SameOutside(before[i], m, carved) && Wiped(carved, m', ptr, ptr + WholeWords(size))
    ensures Unharmed(carved, after, ptr, ptr + WholeWords(size)) && SameOutside(before[i], m, m')
  {
    hide Segment, HeaderAt, Represents, Place, Skip, Suits, Wiped, Unharmed, OnWord, SameOutside;
    var k := NewPiece(before, base, base + ARENA_SIZE, i, size, align);
    PlaceKeepsTiles(before, base, base + ARENA_SIZE, i, size, align);
    ClearingIsSafeIff(carved, after, base, base + ARENA_SIZE, k, size);
    ClearingStays(carved, m', before[i], after[k], size);
    SameOutsideTwice(before[i], m, carved, m');
  }

  lemma RegularAlign(size: nat, align: nat)
    requires Regular(size, align)
    ensures size % 16 == 0 && align >= 16
  {
  }

  method StepGiveBack(arena: Arena, ptr: nat, held: map<nat, Grant>, ghost stored: map<int, Word>, ghost regular: bool)
    returns (held': map<nat, Grant>, ghost stored': map<int, Word>)
    requires arena.Valid() && Holds(arena.blocks, held) && Keeps(arena.mem, arena.blocks, stored)
    requires Aligned(held, regular) && (regular ==> OnBoundaries(arena.blocks))
    modifies arena
    ensures arena.Valid() && Holds(arena.blocks, held') && Keeps(arena.mem, arena.blocks, stored')
    ensures Aligned(held', regular) && (regular ==> OnBoundaries(arena.blocks))
  {
    hide Holds, Keeps, HeaderAt, Represents, Segment, GapBytes, OnBoundaries, MultipleOf, Release;
    held', stored' := held, stored;
    ghost var before, m := arena.blocks, arena.mem;
    if ptr in held {
      HeldLives(before, held, ptr);
      ghost var i := HeldBlock(before, ptr, held[ptr].size);
      arena.Free(ptr, i);
      ReleaseEndsLive(before, arena.base, arena.base + ARENA_SIZE, i);
      ReleaseKeepsTiles(before, arena.base, arena.base + ARENA_SIZE, i);
      ReleaseKeepsHeld(before, arena.blocks, arena.base, arena.base + ARENA_SIZE, i, held);
      held' := held - {ptr};
      stored' := map a | a in stored && !(ptr <= a < End(HEADER, before[i])) :: stored[a];
      ReleaseKeepsStored(m, arena.mem, before, arena.blocks, arena.base, arena.base + ARENA_SIZE, i, stored, stored');
    }
  }

  method StepStore(arena: Arena, ptr: nat, offset: nat, value: Word, held: map<nat, Grant>,
                   ghost stored: map<int, Word>)
    returns (ghost stored': map<int, Word>)
    requires arena.Valid() && Holds(arena.blocks, held) && Keeps(arena.mem, arena.blocks, stored)
    modifies arena`mem
    ensures arena.Valid() && Holds(arena.blocks, held) && Keeps(arena.mem, arena.blocks, stored')
  {
    hide Holds, Keeps, HeaderAt, Represents, Segment, GapBytes;
    stored' := stored;
    if ptr in held && offset + 4 <= held[ptr].size && OnWord(offset) {
      ghost var blocks := arena.blocks;
      HeldLives(blocks, held, ptr);
      ghost var i := HeldBlock(blocks, ptr, held[ptr].size);
      DataStoreKeepsHeaders(arena.mem, blocks, arena.base, arena.base + ARENA_SIZE, i, ptr + offset, value);
      StoreKeepsStored(arena.mem, blocks, i, ptr + offset, value, stored);
      arena.mem := Write32(arena.mem, ptr + offset, value);
      stored' := stored[ptr + offset := value];
    }
  }

  lemma HeldLives(blocks: seq<Block>, held: map<nat, Grant>, p: nat)
    requires Holds(blocks, held) && p in held
    ensures Lives(blocks, p, held[p].size)
  {
  }

  lemma StoreKeepsStored(m: Memory, blocks: seq<Block>, i: nat, a: int, v: Word, stored: map<int, Word>)
    requires Keeps(m, blocks, stored) && i < |blocks| && blocks[i] in Live(blocks)
    requires Data(blocks[i]) <= a < End(HEADER, blocks[i])
    ensures Keeps(Write32(m, a, v), blocks, stored[a := v])
  {
    forall b | b in stored[a := v] ensures InLiveData(blocks, b) && Read32(Write32(m, a, v), b) == stored[a := v][b] {
      if b != a {
        assert Read32(m, b) == stored[b];
      }
    }
  }
}
