/** Lookaside lists: a cache of free blocks above the pool, chained through the first
    word of each cached block. */
module Lookaside {
  import opened Physical

  const DEFAULT_DEPTH: nat := 4

  /** From `head` on, the first words lead through the blocks `s` and then to 0. */
  ghost predicate Chain(m: Memory, head: Word, s: seq<Word>)
    decreases |s|
  {
    if s == [] then head == 0
    else head == s[0] && head != 0 && Chain(m, Read32(m, head), s[1..])
  }

  ghost predicate Distinct(s: seq<Word>) {
    forall i, j :: 0 <= i < j < |s| ==> s[i] != s[j]
  }

  /** Every block that is out of the pool is in exactly one place: once in the cache, or
      with a client. */
  ghost predicate Placed(out: set<Word>, cached: seq<Word>, live: set<Word>) {
    && Distinct(cached)
    && (forall b :: b in cached ==> b !in live)
    && (forall b :: b in out <==> b in cached || b in live)
  }

  lemma PopPlaced(out: set<Word>, cached: seq<Word>, live: set<Word>)
    requires Placed(out, cached, live) && cached != []
    ensures var b := cached[0];
            && b !in live && b !in cached[1..] && b in out
            && Placed(out, cached[1..], live + {b}) && |live + {b}| == |live| + 1
            && Placed(out - {b}, cached[1..], live)
  {
    var b, rest := cached[0], cached[1..];
    assert forall i :: 0 <= i < |rest| ==> rest[i] == cached[i + 1];
    assert forall c :: c in cached <==> c == b || c in rest;
  }

  lemma PushPlaced(out: set<Word>, cached: seq<Word>, live: set<Word>, b: Word)
    requires Placed(out, cached, live) && b in live
    ensures b !in cached && b in out && |live - {b}| == |live| - 1
    ensures Placed(out, [b] + cached, live - {b}) && Placed(out - {b}, cached, live - {b})
  {
  }

  lemma InNoPlace(out: set<Word>, cached: seq<Word>, live: set<Word>, b: Word)
    requires Placed(out, cached, live) && b !in out
    ensures b !in live && b !in cached
  {
  }

  lemma GivePlaced(out: set<Word>, live: set<Word>, b: Word)
    requires Placed(out, [], live) && b !in out
    ensures b !in live && Placed(out + {b}, [], live + {b}) && |live + {b}| == |live| + 1
  {
  }

  /** A store outside the chained blocks leaves the chain alone. */
  lemma {:induction false} ChainStays(m: Memory, head: Word, s: seq<Word>, a: int, v: Word)
    requires Chain(m, head, s) && a !in s
    ensures Chain(Write32(m, a, v), head, s)
    decreases |s|
  {
    if s != [] {
      ChainStays(m, Read32(m, head), s[1..], a, v);
    }
  }

  /** The chain is determined by memory and its head. */
  lemma {:induction false} ChainIsUnique(m: Memory, head: Word, s: seq<Word>, t: seq<Word>)
    requires Chain(m, head, s) && Chain(m, head, t)
    ensures s == t
    decreases |s|
  {
    if s != [] && t != [] {
      ChainIsUnique(m, Read32(m, head), s[1..], t[1..]);
    }
  }

  /** A 32-bit counter after `n` steps. */
  predicate Counts(count: Word, n: nat) { count == n % TWO32 }

  function Next(count: Word): Word { (count + 1) % TWO32 }

  lemma NextCounts(count: Word, n: nat)
    requires Counts(count, n)
    ensures Counts(Next(count), n + 1)
  {
  }

  /** How many times more often the first counter has wrapped around. */
  function Laps(allocs: nat, frees: nat): int { allocs / TWO32 - frees / TWO32 }

  lemma Difference(a: Word, allocs: nat, f: Word, frees: nat)
    requires Counts(a, allocs) && Counts(f, frees) && frees <= allocs
    ensures a - f == allocs - frees - Laps(allocs, frees) * TWO32
    ensures Laps(allocs, frees) >= 0 && (allocs < TWO32 ==> Laps(allocs, frees) == 0)
  {
  }

  lemma ReadBack(m: Memory, a: int, v: Word)
    ensures Read32(Write32(m, a, v), a) == v
    ensures forall b :: b != a ==> Read32(Write32(m, a, v), b) == Read32(m, b)
  {
  }

  /** The pool below: `out` are the blocks it has given out and not got back. */
  class Pool {
    var out: set<Word>

    constructor ()
      ensures out == {}
    {
      out := {};
    }

    /** Gives out `offer` if the pool still has it, and nothing (0) otherwise. */
    method Give(offer: Word) returns (block: Word)
      modifies this
      ensures block == if offer in old(out) then 0 else offer
      ensures out == if block == 0 then old(out) else old(out) + {block}
    {
      block := if offer in out then 0 else offer;
      if block != 0 {
        out := out + {block};
      }
    }

    /** Takes back a block that is out; giving one back twice is ruled out. */
    method TakeBack(block: Word)
      requires block in out
      modifies this
      ensures out == old(out) - {block}
    {
      out := out - {block};
    }
  }

  class List {
    const pool: Pool
    const depth: nat
    const blockSize: Word
    const tag: Word
    var mem: Memory
    var allocCount: Word
    var freeCount: Word
    var freeHead: Word
    /** The numbers of calls so far, the cached blocks (top first) and those clients hold. */
    ghost var allocs: nat
    ghost var frees: nat
    ghost var cached: seq<Word>
    ghost var live: set<Word>

    ghost predicate Valid()
      reads this, pool
    {
      && depth < 0x1_0000
      && Counts(allocCount, allocs) && Counts(freeCount, frees)
      && Chain(mem, freeHead, cached) && Placed(pool.out, cached, live) && 0 !in pool.out
      && frees + |live| <= allocs
    }

    /** The bound that `Free` keeps, though it compares something else with the depth. */
    ghost predicate Bounded()
      reads this
    {
      cached != [] ==> |cached| + (allocs - frees) <= depth
    }

    constructor (pool: Pool, mem: Memory, blockSize: Word, tag: Word, depth: Word)
      requires pool.out == {}
      ensures Valid() && Bounded() && cached == [] && live == {} && allocs == 0
      ensures this.pool == pool && this.mem == mem && this.blockSize == blockSize && this.tag == tag
      ensures this.depth == if depth == 0 then 4 else depth % 0x1_0000
    {
      this.pool := pool;
      this.depth := (if depth == 0 then DEFAULT_DEPTH else depth) % 0x1_0000;
      this.blockSize := blockSize;
      this.tag := tag;
      this.mem := mem;
      allocCount, freeCount, freeHead := 0, 0, 0;
      allocs, frees, cached, live := 0, 0, [], {};
    }

    /** The top cached block, or else what the pool gives, possibly nothing (0). */
    method Allocate(offer: Word) returns (block: Word)
      requires Valid()
      modifies this`allocCount, this`freeHead, this`allocs, this`cached, this`live, pool
      ensures Valid() && (old(Bounded()) ==> Bounded())
      ensures allocs == old(allocs) + 1
      ensures old(cached) != [] ==> block == old(cached)[0] && cached == old(cached)[1..] && pool.out == old(pool.out)
      ensures old(cached) == [] ==> block == (if offer in old(pool.out) then 0 else offer) && cached == []
      ensures block !in old(live) && block !in cached
      ensures live == if block == 0 then old(live) else old(live) + {block}
    {
      hide Counts, Next, Placed, Read32;
      var head := freeHead;
      NextCounts(allocCount, allocs);
      allocCount := Next(allocCount);
      allocs := allocs + 1;
      if head != 0 {
        PopPlaced(pool.out, cached, live);
        freeHead := Read32(mem, head);
        cached := cached[1..];
        live := live + {head};
        return head;
      }
      ghost var out := pool.out;
      InNoPlace(out, cached, live, 0);
      block := pool.Give(offer);
      if block != 0 {
        GivePlaced(out, live, block);
        live := live + {block};
      }
    }

    /** Caches the block of a client, or hands it to the pool (`pooled`). The bound stays
        exactly if the counters have wrapped equally often or few blocks are out. */
    method Free(block: Word) returns (pooled: bool)
      requires Valid() && block in live
      modifies this`mem, this`freeCount, this`freeHead, this`frees, this`cached, this`live, pool
      ensures Valid()
      ensures frees == old(frees) + 1 && live == old(live) - {block}
      ensures pooled <==> allocs - frees - Laps(allocs, frees) * TWO32 >= depth
      ensures allocs < TWO32 ==> Laps(allocs, frees) == 0
      ensures old(Bounded()) && allocs - frees < TWO32 ==>
                (Bounded() <==> Laps(allocs, frees) == 0 || allocs - frees < depth)
      ensures cached == if pooled then old(cached) else [block] + old(cached)
      ensures pool.out == if pooled then old(pool.out) - {block} else old(pool.out)
      ensures forall a :: a != block ==> Read32(mem, a) == Read32(old(mem), a)
    {
      hide Counts, Next, Placed, Write32, Read32;
      NextCounts(freeCount, frees);
      PushPlaced(pool.out, cached, live, block);
      freeCount := Next(freeCount);
      frees := frees + 1;
      live := live - {block};
      Difference(allocCount, allocs, freeCount, frees);
      hide Laps;
      var outstanding := allocCount - freeCount;
      if outstanding >= depth {
        pool.TakeBack(block);
        return true;
      }
      ChainStays(mem, freeHead, cached, block, freeHead);
      ReadBack(mem, block, freeHead);
      mem := Write32(mem, block, freeHead);
      freeHead := block;
      cached := [block] + cached;
      return false;
    }

    /** Hands the cached blocks to the pool, top first, each exactly once. */
    method DeleteList() returns (pooled: seq<Word>)
      requires Valid()
      modifies this`freeHead, this`cached, pool
      ensures Valid() && Bounded() && cached == [] && freeHead == 0
      ensures pooled == old(cached) && Placed(pool.out, [], live)
    {
      hide Counts, Next, Placed, Read32;
      pooled := [];
      var block := freeHead;
      ghost var rest := cached;
      while block != 0
        invariant old(cached) == cached == pooled + rest && Chain(mem, block, rest) && Placed(pool.out, rest, live)
        invariant 0 !in pool.out
        decreases |rest|
      {
        PopPlaced(pool.out, rest, live);
        var next := Read32(mem, block);
        pool.TakeBack(block);
        pooled := pooled + [block];
        rest := rest[1..];
        block := next;
      }
      assert pooled + [] == pooled;
      freeHead := 0;
      cached := [];
    }

    /** A client writes the first word of a block it holds. */
    method Scribble(block: Word, v: Word)
      requires Valid() && block in live
      modifies this`mem
      ensures Valid() && mem == Write32(old(mem), block, v)
    {
      hide Counts, Chain, Write32;
      PushPlaced(pool.out, cached, live, block);
      hide Placed;
      ChainStays(mem, freeHead, cached, block, v);
      mem := Write32(mem, block, v);
    }
  }

  datatype Request = Alloc(offer: Word) | Give(block: Word) | Scribble(block: Word, value: Word) | Delete

  /** Any run of clients that free and write only what they got. Whatever the pool
      offers, every block that is out is either held by a client or cached, not both. */
  method Serve(list: List, requests: seq<Request>) returns (held: set<Word>)
    requires list.Valid() && list.live == {} && list.cached == [] && list.allocs == 0
    modifies list, list.pool
    ensures list.Valid() && held == list.live
    ensures |held| <= list.allocs - list.frees <= |requests|
    ensures |requests| < TWO32 && list.cached != [] ==> |list.cached| + (list.allocs - list.frees) <= list.depth
    ensures Placed(list.pool.out, list.cached, held)
  {
    hide Counts, Chain, Placed;
    held := {};
    for k := 0 to |requests|
      invariant list.Valid() && list.allocs <= k && held == list.live
      invariant |requests| < TWO32 ==> list.Bounded()
    {
      match requests[k]
      case Alloc(offer) =>
        var block := list.Allocate(offer);
        if block != 0 {
          held := held + {block};
        }
      case Give(block) =>
        if block in held {
          var pooled := list.Free(block);
          held := held - {block};
        }
      case Scribble(block, value) =>
        if block in held {
          list.Scribble(block, value);
        }
      case Delete =>
        var pooled := list.DeleteList();
    }
  }
}
