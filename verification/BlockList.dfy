/** Address-ordered lists of heap blocks, with headers of `hdr` bytes in front of the
    data and possibly unused bytes, the gap, behind it. */
module BlockList {
  /** A header in memory (`next` is 0 at the end of the list). */
  datatype Header = Header(size: nat, next: nat, free: bool)

  /** A block of the list, with the address of its header. */
  datatype Block = Block(addr: nat, size: nat, free: bool, gap: nat)

  function End(hdr: nat, b: Block): nat { b.addr + hdr + b.size }

  /** The blocks lie one after the other from `start` to `end`, without overlap and with
      no bytes between them but the gaps. */
  ghost predicate Segment(hdr: nat, blocks: seq<Block>, start: nat, end: nat) {
    if blocks == [] then start == end
    else
      && blocks[0].addr == start
      && Segment(hdr, blocks[1..], End(hdr, blocks[0]) + blocks[0].gap, end)
  }

  function UsedBytes(blocks: seq<Block>): nat {
    if blocks == [] then 0 else (if blocks[0].free then 0 else blocks[0].size) + UsedBytes(blocks[1..])
  }

  function FreeBytes(blocks: seq<Block>): nat {
    if blocks == [] then 0 else (if blocks[0].free then blocks[0].size else 0) + FreeBytes(blocks[1..])
  }

  function GapBytes(blocks: seq<Block>): nat {
    if blocks == [] then 0 else blocks[0].gap + GapBytes(blocks[1..])
  }

  function EndOf(hdr: nat, blocks: seq<Block>, start: nat): nat {
    if blocks == [] then start else End(hdr, blocks[|blocks| - 1]) + blocks[|blocks| - 1].gap
  }

  // ---- tiling ----------------------------------------------------------------

  lemma {:induction false} SegmentOfConcat(hdr: nat, a: seq<Block>, b: seq<Block>, start: nat, end: nat)
    ensures Segment(hdr, a + b, start, end) <==>
            Segment(hdr, a, start, EndOf(hdr, a, start)) && Segment(hdr, b, EndOf(hdr, a, start), end)
  {
    if a == [] {
      assert a + b == b;
    } else {
      SegmentOfConcat(hdr, a[1..], b, End(hdr, a[0]) + a[0].gap, end);
      assert (a + b)[1..] == a[1..] + b;
    }
  }

  lemma {:induction false} BytesOfConcat(a: seq<Block>, b: seq<Block>)
    ensures UsedBytes(a + b) == UsedBytes(a) + UsedBytes(b)
    ensures GapBytes(a + b) == GapBytes(a) + GapBytes(b)
  {
    if a == [] {
      assert a + b == b;
    } else {
      BytesOfConcat(a[1..], b);
      assert (a + b)[1..] == a[1..] + b;
    }
  }

  /** The list with the `taken` blocks from `i` on replaced by `mid`. */
  function Exchanged(blocks: seq<Block>, i: nat, taken: nat, mid: seq<Block>): seq<Block>
    requires i + taken <= |blocks|
  {
    blocks[..i] + mid + blocks[i + taken..]
  }

  /** Replacing some blocks by others over the same bytes. */
  lemma ExchangeKeepsSegment(hdr: nat, blocks: seq<Block>, start: nat, end: nat, i: nat, taken: nat, mid: seq<Block>)
    requires Segment(hdr, blocks, start, end) && i < i + taken <= |blocks| && mid != []
    requires Segment(hdr, mid, blocks[i].addr, EndOf(hdr, blocks[i..i + taken], 0))
    ensures Segment(hdr, Exchanged(blocks, i, taken, mid), start, end) && Exchanged(blocks, i, taken, mid) != []
  {
    hide Segment;
    var first, out, rest := blocks[..i], blocks[i..i + taken], blocks[i + taken..];
    assert blocks == first + out + rest && first + out + rest == first + (out + rest);
    SegmentOfConcat(hdr, first, out + rest, start, end);
    SegmentOfConcat(hdr, out, rest, EndOf(hdr, first, start), end);
    assert (out + rest)[0] == blocks[i];
    SegmentStarts(hdr, out + rest, EndOf(hdr, first, start), end);
    SegmentEnds(hdr, mid, blocks[i].addr, EndOf(hdr, out, 0));
    SegmentOfConcat(hdr, mid, rest, blocks[i].addr, end);
    SegmentOfConcat(hdr, first, mid + rest, start, end);
    assert first + mid + rest == first + (mid + rest);
  }

  lemma ExchangeCounts(blocks: seq<Block>, i: nat, taken: nat, mid: seq<Block>)
    requires i + taken <= |blocks|
    ensures UsedBytes(Exchanged(blocks, i, taken, mid)) ==
              UsedBytes(blocks) - UsedBytes(blocks[i..i + taken]) + UsedBytes(mid)
    ensures GapBytes(Exchanged(blocks, i, taken, mid)) ==
              GapBytes(blocks) - GapBytes(blocks[i..i + taken]) + GapBytes(mid)
  {
    hide UsedBytes, GapBytes;
    var first, out, rest := blocks[..i], blocks[i..i + taken], blocks[i + taken..];
    assert blocks == first + out + rest;
    BytesOfConcat(first + out, rest);
    BytesOfConcat(first, out);
    BytesOfConcat(first + mid, rest);
    BytesOfConcat(first, mid);
  }

  lemma ExchangeKeepsNoGaps(blocks: seq<Block>, i: nat, taken: nat, mid: seq<Block>)
    requires i + taken <= |blocks| && NoGaps(blocks) && NoGaps(mid)
    ensures NoGaps(Exchanged(blocks, i, taken, mid))
  {
  }

  /** Used bytes, free bytes, headers and gaps make up the region. */
  lemma {:induction false} Accounting(hdr: nat, blocks: seq<Block>, start: nat, end: nat)
    requires Segment(hdr, blocks, start, end)
    ensures UsedBytes(blocks) + FreeBytes(blocks) + hdr * |blocks| + GapBytes(blocks) == end - start
  {
    if blocks != [] {
      Accounting(hdr, blocks[1..], End(hdr, blocks[0]) + blocks[0].gap, end);
      assert hdr * |blocks| == hdr + hdr * (|blocks| - 1);
    }
  }

  lemma SegmentStarts(hdr: nat, blocks: seq<Block>, start: nat, end: nat)
    requires Segment(hdr, blocks, start, end) && blocks != []
    ensures blocks[0].addr == start
  {
  }

  lemma {:induction false} SegmentEnds(hdr: nat, blocks: seq<Block>, start: nat, end: nat)
    requires Segment(hdr, blocks, start, end)
    ensures start <= end && EndOf(hdr, blocks, start) == end
  {
    if blocks != [] {
      SegmentEnds(hdr, blocks[1..], End(hdr, blocks[0]) + blocks[0].gap, end);
    }
  }

  /** Every block lies in the region, and a later one after an earlier one. */
  lemma {:induction false} AddressOrder(hdr: nat, blocks: seq<Block>, start: nat, end: nat, i: nat, j: nat)
    requires Segment(hdr, blocks, start, end) && i <= j < |blocks|
    ensures start <= blocks[i].addr && End(hdr, blocks[j]) + blocks[j].gap <= end
    ensures i < j ==> End(hdr, blocks[i]) <= blocks[j].addr
    ensures i + 1 == j ==> End(hdr, blocks[i]) + blocks[i].gap == blocks[j].addr
  {
    if i > 0 {
      AddressOrder(hdr, blocks[1..], End(hdr, blocks[0]) + blocks[0].gap, end, i - 1, j - 1);
    } else if j > 0 {
      AddressOrder(hdr, blocks[1..], End(hdr, blocks[0]) + blocks[0].gap, end, 0, j - 1);
    } else {
      SegmentEnds(hdr, blocks[1..], End(hdr, blocks[0]) + blocks[0].gap, end);
    }
  }

  /** No two blocks share a byte, header or data. */
  lemma BlocksApart(hdr: nat, blocks: seq<Block>, start: nat, end: nat, i: nat, j: nat)
    requires Segment(hdr, blocks, start, end) && i < |blocks| && j < |blocks| && i != j
    ensures End(hdr, blocks[i]) <= blocks[j].addr || End(hdr, blocks[j]) <= blocks[i].addr
  {
    AddressOrder(hdr, blocks, start, end, if i < j then i else j, if i < j then j else i);
  }

  ghost predicate DistinctAddresses(blocks: seq<Block>) {
    forall i, j :: 0 <= i < |blocks| && 0 <= j < |blocks| && i != j ==> blocks[i].addr != blocks[j].addr
  }

  lemma AddressesDiffer(hdr: nat, blocks: seq<Block>, start: nat, end: nat)
    requires hdr > 0 && Segment(hdr, blocks, start, end)
    ensures DistinctAddresses(blocks)
  {
    forall i, j | 0 <= i < |blocks| && 0 <= j < |blocks| && i != j ensures blocks[i].addr != blocks[j].addr {
      BlocksApart(hdr, blocks, start, end, i, j);
    }
  }

  /** No other block starts inside block `i`. */
  lemma NoneInside(hdr: nat, blocks: seq<Block>, start: nat, end: nat, i: nat, a: nat)
    requires hdr > 0 && Segment(hdr, blocks, start, end) && i < |blocks|
    requires blocks[i].addr <= a < End(hdr, blocks[i])
    ensures forall j :: 0 <= j < |blocks| && j != i ==> blocks[j].addr != a
  {
    forall j | 0 <= j < |blocks| && j != i ensures blocks[j].addr != a {
      BlocksApart(hdr, blocks, start, end, i, j);
    }
  }

  lemma InSegment(hdr: nat, blocks: seq<Block>, start: nat, end: nat, i: nat)
    requires Segment(hdr, blocks, start, end) && i < |blocks|
    ensures start <= blocks[i].addr && End(hdr, blocks[i]) + blocks[i].gap <= end
    ensures i == 0 ==> blocks[i].addr == start
    ensures i + 1 < |blocks| ==> End(hdr, blocks[i]) + blocks[i].gap == blocks[i + 1].addr
  {
    AddressOrder(hdr, blocks, start, end, i, i);
    if i + 1 < |blocks| {
      AddressOrder(hdr, blocks, start, end, i, i + 1);
    }
  }

  lemma OneBlock(hdr: nat, b: Block)
    ensures Segment(hdr, [b], b.addr, End(hdr, b) + b.gap)
    ensures EndOf(hdr, [b], 0) == End(hdr, b) + b.gap
    ensures UsedBytes([b]) == (if b.free then 0 else b.size) && GapBytes([b]) == b.gap
  {
    assert [b][1..] == [];
  }

  lemma TwoBlocks(hdr: nat, b: Block, c: Block)
    requires End(hdr, b) + b.gap == c.addr
    ensures Segment(hdr, [b, c], b.addr, End(hdr, c) + c.gap)
    ensures EndOf(hdr, [b, c], 0) == End(hdr, c) + c.gap
    ensures UsedBytes([b, c]) == UsedBytes([b]) + UsedBytes([c])
    ensures GapBytes([b, c]) == b.gap + c.gap
  {
    assert [b, c][1..] == [c];
    OneBlock(hdr, b);
    OneBlock(hdr, c);
  }

  lemma {:induction false} UsedAtLeast(blocks: seq<Block>, i: nat)
    requires i < |blocks| && !blocks[i].free
    ensures UsedBytes(blocks) >= blocks[i].size
  {
    if i > 0 {
      UsedAtLeast(blocks[1..], i - 1);
    }
  }

  /** All headers, and so the data behind them, start at multiples of 16. */
  predicate OnBoundaries(blocks: seq<Block>) { forall i :: 0 <= i < |blocks| ==> blocks[i].addr % 16 == 0 }

  lemma ExchangeKeepsBoundaries(blocks: seq<Block>, i: nat, taken: nat, mid: seq<Block>)
    requires i + taken <= |blocks| && OnBoundaries(blocks) && OnBoundaries(mid)
    ensures OnBoundaries(Exchanged(blocks, i, taken, mid))
  {
  }

  predicate NoGaps(blocks: seq<Block>) { forall i :: 0 <= i < |blocks| ==> blocks[i].gap == 0 }

  lemma {:induction false} NoGapBytes(blocks: seq<Block>)
    requires NoGaps(blocks)
    ensures GapBytes(blocks) == 0
  {
    if blocks != [] {
      NoGapBytes(blocks[1..]);
    }
  }

  // ---- headers in memory -----------------------------------------------------

  function NextAddr(blocks: seq<Block>, i: nat): nat {
    if i + 1 < |blocks| then blocks[i + 1].addr else 0
  }

  /** The headers `h` finds in memory are those of the block list, linked in order. */
  ghost predicate Represents(h: nat -> Header, blocks: seq<Block>) {
    forall i :: 0 <= i < |blocks| ==>
      h(blocks[i].addr) == Header(blocks[i].size, NextAddr(blocks, i), blocks[i].free)
  }

  lemma RepresentedAt(h: nat -> Header, blocks: seq<Block>, i: nat)
    requires Represents(h, blocks) && i < |blocks|
    ensures h(blocks[i].addr) == Header(blocks[i].size, NextAddr(blocks, i), blocks[i].free)
  {
  }

  /** The link of the `k`-th of the blocks `mid` that are followed by the address `next`. */
  function LinkIn(mid: seq<Block>, k: nat, next: nat): nat {
    if k + 1 < |mid| then mid[k + 1].addr else next
  }

  /** The links of `blocks` with block `i` and `taken - 1` more replaced by `mid`. */
  lemma MidLinks(blocks: seq<Block>, after: seq<Block>, i: nat, taken: nat, mid: seq<Block>, j: nat)
    requires i < i + taken <= |blocks| && mid != [] && mid[0].addr == blocks[i].addr
    requires after == Exchanged(blocks, i, taken, mid) && j < |after|
    ensures j < i ==> after[j] == blocks[j] && NextAddr(after, j) == NextAddr(blocks, j)
    ensures i <= j < i + |mid| ==> after[j] == mid[j - i]
    ensures i <= j < i + |mid| ==> NextAddr(after, j) == LinkIn(mid, j - i, NextAddr(blocks, i + taken - 1))
    ensures j >= i + |mid| ==>
              after[j] == blocks[j - |mid| + taken] && NextAddr(after, j) == NextAddr(blocks, j - |mid| + taken)
  {
    if i <= j < i + |mid| - 1 {
      assert after[j + 1] == mid[j - i + 1];
    } else if j == i + |mid| - 1 && i + taken < |blocks| {
      assert after[j + 1] == blocks[i + taken];
    }
  }

  /** `after` is `blocks` with some blocks replaced by `mid`, and so are the headers. */
  lemma MidRepresents(h: nat -> Header, h': nat -> Header, blocks: seq<Block>, after: seq<Block>,
                      i: nat, taken: nat, mid: seq<Block>)
    requires Represents(h, blocks) && i < i + taken <= |blocks| && mid != [] && mid[0].addr == blocks[i].addr
    requires after == Exchanged(blocks, i, taken, mid)
    requires forall j :: 0 <= j < |blocks| && !(i <= j < i + taken) ==> h'(blocks[j].addr) == h(blocks[j].addr)
    requires forall k :: 0 <= k < |mid| ==>
               h'(mid[k].addr) == Header(mid[k].size, LinkIn(mid, k, NextAddr(blocks, i + taken - 1)), mid[k].free)
    ensures Represents(h', after)
  {
    forall j | 0 <= j < |after|
      ensures h'(after[j].addr) == Header(after[j].size, NextAddr(after, j), after[j].free)
    {
      MidLinks(blocks, after, i, taken, mid, j);
      hide NextAddr, LinkIn;
      if i <= j < i + |mid| {
        var k := j - i;
        assert h'(mid[k].addr).size == mid[k].size;
      } else {
        var k := if j < i then j else j - |mid| + taken;
        assert h'(blocks[k].addr) == h(blocks[k].addr);
      }
    }
  }

  // ---- live blocks -----------------------------------------------------------

  function Live(blocks: seq<Block>): set<Block> { set b | b in blocks && !b.free }

  /** Replacing block `i` by `mid` exchanges the live blocks of the one for the other's. */
  lemma LiveAfterReplace(blocks: seq<Block>, i: nat, taken: nat, mid: seq<Block>)
    requires i < i + taken <= |blocks| && DistinctAddresses(blocks)
    ensures Live(Exchanged(blocks, i, taken, mid)) == Live(blocks) - Live(blocks[i..i + taken]) + Live(mid)
  {
    var after := Exchanged(blocks, i, taken, mid);
    assert blocks == blocks[..i] + blocks[i..i + taken] + blocks[i + taken..];
    forall b ensures b in after <==> b in blocks[..i] || b in mid || b in blocks[i + taken..] {
    }
    forall b | b in blocks[i..i + taken] ensures b !in blocks[..i] && b !in blocks[i + taken..] {
    }
  }
}
