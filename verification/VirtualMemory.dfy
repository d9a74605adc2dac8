/** VirtualAlloc and VirtualFree over the page tables and the frame allocator. */
module VirtualMemory {
  import opened Physical
  import opened Pfn
  import opened Paging

  const VA_BASE: nat := 0x1000_0000
  const VA_TOP: nat := 0x2000_0000

  datatype Range = Range(va: nat, pages: nat) {
    function End(): nat { va + pages * FRAME_SIZE }
  }

  function PagesFor(size: nat): nat { (size + FRAME_SIZE - 1) / FRAME_SIZE }

  /** The pages hold the bytes, and less than a page more. */
  lemma PagesCover(size: nat)
    ensures size <= PagesFor(size) * FRAME_SIZE < size + FRAME_SIZE
  {
  }

  /** The address of the page of a byte. */
  function PageBase(b: nat): (v: nat)
    ensures v % FRAME_SIZE == 0 && v <= b < v + FRAME_SIZE
  {
    b - b % FRAME_SIZE
  }

  predicate Apart(r: Range, s: Range) { r.End() <= s.va || s.End() <= r.va }

  /** `v` is the address of one of the pages of `r`. */
  predicate Covers(r: Range, v: int) { r.va <= v < r.End() && (v - r.va) % FRAME_SIZE == 0 }

  predicate InWindow(r: Range, top: nat) { VA_BASE <= r.va && r.End() <= top && r.va % FRAME_SIZE == 0 }

  /** All ranges lie in the window below `top`, distinct ones do not overlap, and only
      empty ones may occur twice. */
  ghost predicate Disjoint(all: multiset<Range>, top: nat) {
    && (forall r :: r in all ==> InWindow(r, top) && (r.pages > 0 ==> all[r] == 1))
    && (forall r, s :: r in all && s in all && r != s ==> Apart(r, s))
  }

  /** The pages mapped so far for a range that is being allocated. */
  predicate MappedPart(r: Range, n: nat, v: int) { Covers(r, v) && v < r.va + n * FRAME_SIZE }

  /** The mapped pages are the pages of the live ranges. */
  ghost predicate Coverage(live: multiset<Range>, frames: map<int, int>) {
    && (forall r, v: int :: r in live && Covers(r, v) ==> v in frames)
    && (forall v :: v in frames ==> exists r :: r in live && Covers(r, v))
  }

  lemma CoverageGrows(live: multiset<Range>, frames: map<int, int>, r: Range, mapped: map<int, int>)
    requires Coverage(live, frames)
    requires forall v: int :: v in mapped <==> v in frames || Covers(r, v)
    ensures Coverage(live + multiset{r}, mapped)
  {
    forall v | v in mapped ensures exists s :: s in live + multiset{r} && Covers(s, v) {
      if v in frames {
        var s :| s in live && Covers(s, v);
        assert s in live + multiset{r};
      } else {
        assert r in live + multiset{r};
      }
    }
  }

  lemma CoverageShrinks(live: multiset<Range>, free: multiset<Range>, frames: map<int, int>, r: Range, top: nat,
                        left: map<int, int>)
    requires Disjoint(live + free, top) && Coverage(live, frames) && r in live
    requires forall v :: v in left <==> v in frames && !Covers(r, v)
    ensures Coverage(live - multiset{r}, left)
  {
    forall s, v: int | s in live - multiset{r} && Covers(s, v) ensures v in left {
      var all := live + free;
      assert s in live && s in all && r in all;
      assert live[r] <= all[r];
      assert s == r ==> r.pages == 0;
    }
    forall v | v in left ensures exists s :: s in live - multiset{r} && Covers(s, v) {
      var s :| s in live && Covers(s, v);
      assert s in live - multiset{r};
    }
  }

  lemma DisjointPart(all: multiset<Range>, part: multiset<Range>, top: nat)
    requires Disjoint(all, top) && part <= all
    ensures Disjoint(part, top)
  {
    forall r | r in part ensures r in all && InWindow(r, top) && (r.pages > 0 ==> part[r] == 1) {
      assert part[r] <= all[r];
    }
  }

  /** A new range at the top of what was handed out. */
  lemma Bump(all: multiset<Range>, top: nat, pages: nat)
    requires Disjoint(all, top) && top % FRAME_SIZE == 0 && VA_BASE <= top
    ensures Disjoint(all + multiset{Range(top, pages)}, top + pages * FRAME_SIZE)
  {
    var r := Range(top, pages);
    assert pages > 0 ==> r !in all;
  }

  lemma TakeFrom(ranges: seq<Range>, i: nat)
    requires i < |ranges|
    ensures multiset(ranges) == multiset(ranges[..i] + ranges[i + 1..]) + multiset{ranges[i]}
  {
    assert ranges == ranges[..i] + [ranges[i]] + ranges[i + 1..];
  }

  /** A page of a live range is not a page of a range that is apart from all of them. */
  lemma NotYetMapped(live: multiset<Range>, rest: multiset<Range>, r: Range, top: nat, v: int)
    requires Disjoint(rest + multiset{r}, top) && live <= rest
    requires exists s :: s in live && Covers(s, v)
    ensures !Covers(r, v)
  {
    var s :| s in live && Covers(s, v);
    var all := rest + multiset{r};
    assert live[s] <= rest[s] && all[r] == rest[r] + 1 && s in all && r in all;
    assert s == r ==> r.pages == 0;
  }

  /** A range reserved beside the live ones has none of the mapped pages. */
  lemma ReservedIsUnmapped(live: multiset<Range>, free: multiset<Range>, frames: map<int, int>, r: Range, top: nat)
    requires Disjoint(live + free + multiset{r}, top) && Coverage(live, frames)
    ensures Disjoint(live + free, top)
    ensures forall v :: v in frames ==> !Covers(r, v)
  {
    hide Disjoint;
    DisjointPart(live + free + multiset{r}, live + free, top);
    forall v | v in frames ensures !Covers(r, v) {
      NotYetMapped(live, live + free, r, top, v);
    }
  }

  /** The `p`-th page of a range is the one that the first `p` are not. */
  lemma PageOfRange(r: Range, p: nat)
    requires p < r.pages
    ensures forall v: int :: MappedPart(r, p + 1, v) <==> MappedPart(r, p, v) || v == r.va + p * FRAME_SIZE
    ensures !MappedPart(r, p, r.va + p * FRAME_SIZE) && Covers(r, r.va + p * FRAME_SIZE)
    ensures forall n: nat, v: int :: n > p && v == r.va + p * FRAME_SIZE ==> MappedPart(r, n, v)
    ensures r.va % FRAME_SIZE == 0 ==> (r.va + p * FRAME_SIZE) % FRAME_SIZE == 0
    ensures r.va % FRAME_SIZE == 0 && r.End() <= VA_TOP ==>
              forall v :: MappedPart(r, p, v) ==> OtherPage(r.va + p * FRAME_SIZE, v)
    ensures r.va + p * FRAME_SIZE < r.End()
  {
    forall v: int ensures MappedPart(r, p + 1, v) <==> MappedPart(r, p, v) || v == r.va + p * FRAME_SIZE {
      if Covers(r, v) {
        assert (v - r.va) == FRAME_SIZE * ((v - r.va) / FRAME_SIZE);
      }
    }
    assert (p * FRAME_SIZE) % FRAME_SIZE == 0;
  }

  lemma PartLimits(r: Range)
    ensures forall v: int :: !MappedPart(r, 0, v)
    ensures forall v: int :: MappedPart(r, r.pages, v) <==> Covers(r, v)
  {
  }

  predicate OtherPage(v: int, w: int) { 0 <= w < VA_TOP && w % FRAME_SIZE == 0 && w != v }

  lemma OnlyPartTaken(frames: map<int, int>, mapped: map<int, int>, left: map<int, int>, r: Range, n: nat)
    requires forall v :: v in mapped <==> v in frames || MappedPart(r, n, v)
    requires forall v :: v in frames ==> !Covers(r, v) && mapped[v] == frames[v]
    requires forall v :: v in left <==> v in mapped && !MappedPart(r, n, v)
    requires forall v :: v in left ==> left[v] == mapped[v]
    ensures left == frames
  {
    forall v
      ensures v in left <==> v in frames
      ensures v in left ==> left[v] == frames[v]
    {
      assert MappedPart(r, n, v) ==> Covers(r, v);
    }
    assert left.Keys == frames.Keys;
  }

  lemma NothingTaken(frames: map<int, int>, left: map<int, int>, r: Range)
    requires forall v :: v in left <==> v in frames && !Covers(r, v)
    requires forall v :: v in left ==> left[v] == frames[v]
    requires forall v :: v in frames ==> !Covers(r, v)
    ensures left == frames
  {
    hide Covers;
    forall v
      ensures v in left <==> v in frames
      ensures v in left ==> left[v] == frames[v]
    {
    }
    assert left.Keys == frames.Keys;
  }

  lemma MemberInWindow(all: multiset<Range>, r: Range, top: nat)
    requires Disjoint(all, top) && r in all
    ensures InWindow(r, top)
  {
  }

  /** The first free range of exactly this many pages, or the length of the list. */
  method FindRange(ranges: seq<Range>, pages: nat) returns (i: nat)
    ensures i <= |ranges| && (i < |ranges| ==> ranges[i].pages == pages)
    ensures forall j :: 0 <= j < i ==> ranges[j].pages != pages
  {
    i := 0;
    while i < |ranges| && ranges[i].pages != pages
      invariant i <= |ranges|
      invariant forall j :: 0 <= j < i ==> ranges[j].pages != pages
    {
      i := i + 1;
    }
  }

  /** Every page in `frames` is mapped to its own frame, which is handed out and is no
      page table; its page table is in place and its leaf entry has just the present and
      the write bit. */
  ghost predicate PagesOk(m: Memory, roles: Roles, used: set<int>, frames: map<int, int>) {
    && (forall v :: v in frames ==> PageOk(m, roles, used, v, frames[v]))
    && (forall v, w :: v in frames && w in frames && v != w ==> frames[v] != frames[w])
  }

  ghost predicate PageOk(m: Memory, roles: Roles, used: set<int>, v: int, frame: int) {
    && v % FRAME_SIZE == 0 && 0 <= v < VA_TOP
    && Translate(m, v) == frame && PageTableOf(m, v) != 0 && LeafOf(m, v) == frame + 3
    && frame in used && frame !in roles
  }

  /** No byte of the page of `v` is mapped. */
  ghost predicate Blank(m: Memory, v: nat) { forall w: nat :: SamePage(v, w) ==> Translate(m, w) == 0 }

  class AddressSpace {
    const tables: PageTables
    var nextFreeVa: nat
    var freeRanges: seq<Range>
    ghost var live: multiset<Range>
    ghost var frames: map<int, int>   // page of a live range to its frame

    /** No address of the window, nor any below, is in a large page at or above 2 GB, and
        all entries have their write bit. */
    ghost predicate LowPages()
      reads tables
    {
      (forall v: nat :: v < VA_TOP ==> SplitSafe(tables.mem, v)) && AllWritable(tables.mem, tables.roles)
    }

    ghost predicate FramesOk(frames: map<int, int>)
      requires tables.Valid()
      reads tables, tables.pfn, tables.pfn.bitmap
    {
      LowPages() && PagesOk(tables.mem, tables.roles, tables.pfn.Used(), frames)
    }

    /** No byte of the page `v` is mapped and `frame` is free. */
    ghost predicate Gone(v: int, frame: int)
      requires tables.Valid()
      reads tables, tables.pfn, tables.pfn.bitmap
    {
      v >= 0 && Blank(tables.mem, v) && frame !in tables.pfn.Used()
    }

    ghost predicate Valid()
      reads this, tables, tables.pfn, tables.pfn.bitmap
    {
      && tables.Valid()
      && VA_BASE <= nextFreeVa <= VA_TOP && nextFreeVa % FRAME_SIZE == 0
      && Disjoint(live + multiset(freeRanges), nextFreeVa)
      && FramesOk(frames)
      && Coverage(live, frames)
    }

    constructor (tables: PageTables)
      requires tables.Valid() && AllWritable(tables.mem, tables.roles)
      requires forall v: nat :: v < VA_TOP ==> SplitSafe(tables.mem, v)
      ensures Valid() && this.tables == tables && live == multiset{} && freeRanges == []
    {
      this.tables := tables;
      nextFreeVa, freeRanges, live, frames := VA_BASE, [], multiset{}, map[];
    }

    /** One turn of the mapping loop: a fresh frame behind the page `v`. */
    method BackPage(v: nat, ghost before: map<int, int>) returns (ok: bool, ghost after: map<int, int>)
      requires tables.Valid() && FramesOk(before) && v !in before && v % FRAME_SIZE == 0 && v < VA_TOP
      modifies tables`mem, tables`roles, tables.pfn.bitmap
      ensures tables.Valid() && FramesOk(after)
      ensures old(tables.pfn.Used()) <= tables.pfn.Used()
      ensures ok ==> v in after && after == before[v := after[v]] && after[v] !in old(tables.pfn.Used())
      ensures !ok ==> after == before && old(tables.pfn.FreeFrames()) <= 3
      ensures tables.pfn.FreeFrames() >= old(tables.pfn.FreeFrames()) - 4
    {
      hide WellFormed, Translate, PageTableOf, SplitSafe, Edited, LeafEdited, AllWritable, Linked, LeafOf, Maps;
      hide Retranslated, Grew, PagesOk, TablesStay;
      after := before;
      var frame := tables.pfn.AllocPage();
      if frame == 0 {
        MoreUsed(tables.mem, tables.roles, old(tables.pfn.Used()), tables.pfn.Used(), before);
        return false, before;
      }
      FreshFrame(tables.mem, tables.roles, old(tables.pfn.Used()), before, frame);
      ghost var m0, roles0, used0 := tables.mem, tables.roles, tables.pfn.Used();
      MoreUsed(m0, roles0, old(tables.pfn.Used()), used0, before);
      assert SplitSafe(tables.mem, v);
      ok := tables.MapPage(v, frame, PAGE_PRESENT + PAGE_RW);
      KeepsRoles(roles0, used0, tables.roles, tables.pfn.Used());
      KeepsSafe(m0, tables.mem);
      if ok {
        after := before[v := frame];
        PagesBacked(m0, roles0, used0, tables.mem, tables.roles, tables.pfn.Used(), v, frame, before);
      } else {
        PagesKept(m0, roles0, used0, tables.mem, tables.roles, tables.pfn.Used(), before);
      }
    }

    /** Undoes the mapping of the page `v`: its frame is free again and it is unmapped. */
    method UnbackPage(v: nat, ghost before: map<int, int>)
      requires tables.Valid() && FramesOk(before) && v in before
      modifies tables`mem, tables`roles, tables.pfn.bitmap
      ensures tables.Valid() && FramesOk(before - {v}) && Gone(v, before[v])
      ensures tables.pfn.Used() == old(tables.pfn.Used()) - {before[v]}
      ensures forall w, f :: OtherPage(v, w) && old(Gone(w, f)) ==> Gone(w, f)
    {
      hide WellFormed, Translate, PageTableOf, SplitSafe, Edited, LeafEdited, AllWritable, Linked, LeafOf;
      hide Retranslated, Grew, PagesOk, TablesStay, Unmaps, Blank;
      MappedPage(tables.mem, tables.roles, tables.pfn.Used(), before, v);
      FrameApart(tables.mem, tables.roles, tables.pfn.Used(), before, v);
      var pa := Translate(tables.mem, v);
      ArenaPage(pa);
      ghost var pages := before - {v};
      var freed := tables.pfn.FreePage(PageOf(pa));
      ghost var m0, roles0, used0 := tables.mem, tables.roles, tables.pfn.Used();
      assert SplitSafe(tables.mem, v);
      var ok := tables.UnmapPage(v);
      KeepsSafe(m0, tables.mem);
      KeepsRoles(roles0, used0, tables.roles, tables.pfn.Used());
      PagesUnbacked(m0, roles0, used0, tables.mem, tables.roles, tables.pfn.Used(), v, before - {v});
      forall w | OtherPage(v, w) && Blank(m0, w) ensures Blank(tables.mem, w) {
        StaysBlank(m0, tables.mem, v, w);
      }
    }

    /** The first free range of the very size, or else new addresses; 0 when the window
        is used up. */
    method Reserve(pages: nat) returns (va: nat)
      requires Valid()
      modifies `nextFreeVa, `freeRanges
      ensures VA_BASE <= nextFreeVa <= VA_TOP && nextFreeVa % FRAME_SIZE == 0
      ensures va == 0 ==> nextFreeVa == old(nextFreeVa) && freeRanges == old(freeRanges)
      ensures va == 0 ==> nextFreeVa + pages * FRAME_SIZE > VA_TOP && forall r :: r in freeRanges ==> r.pages != pages
      ensures va != 0 ==> Disjoint(live + multiset(freeRanges) + multiset{Range(va, pages)}, nextFreeVa)
      ensures va != 0 ==> InWindow(Range(va, pages), nextFreeVa)
    {
      hide Disjoint, Coverage, FramesOk, WellFormed;
      var i := FindRange(freeRanges, pages);
      ghost var all := live + multiset(freeRanges);
      if i < |freeRanges| {
        va := freeRanges[i].va;
        TakeFrom(freeRanges, i);
        MemberInWindow(all, freeRanges[i], nextFreeVa);
        freeRanges := freeRanges[..i] + freeRanges[i + 1..];
        assert live + multiset(freeRanges) + multiset{Range(va, pages)} == all;
      } else {
        if nextFreeVa + pages * FRAME_SIZE > VA_TOP {
          return 0;
        }
        va := nextFreeVa;
        Bump(all, nextFreeVa, pages);
        nextFreeVa := nextFreeVa + pages * FRAME_SIZE;
      }
    }

    /** The rollback loop: takes back the first `p` pages of `r`. */
    method UnmapFirst(r: Range, p: nat, ghost before: map<int, int>) returns (ghost fr: map<int, int>)
      requires tables.Valid() && FramesOk(before) && p <= r.pages
      requires forall v: int :: MappedPart(r, p, v) ==> v in before
      modifies tables`mem, tables`roles, tables.pfn.bitmap
      ensures tables.Valid() && FramesOk(fr) && tables.pfn.Used() <= old(tables.pfn.Used())
      ensures forall v: int :: v in fr <==> v in before && !MappedPart(r, p, v)
      ensures forall v :: v in fr ==> fr[v] == before[v]
    {
      hide WellFormed, FramesOk, MappedPart, Covers;
      PartLimits(r);
      fr := before;
      for q := 0 to p
        invariant tables.Valid() && FramesOk(fr) && tables.pfn.Used() <= old(tables.pfn.Used())
        invariant forall v: int :: v in fr <==> v in before && !MappedPart(r, q, v)
        invariant forall v :: v in fr ==> fr[v] == before[v]
      {
        PageOfRange(r, q);
        UnbackPage(r.va + q * FRAME_SIZE, fr);
        fr := fr - {r.va + q * FRAME_SIZE};
      }
    }

    /** Backs the pages of the unmapped range `r`, or undoes all it did. */
    method MapRange(r: Range) returns (ok: bool, ghost fr: map<int, int>)
      requires tables.Valid() && FramesOk(frames) && r.va % FRAME_SIZE == 0 && r.End() <= VA_TOP
      requires forall v :: v in frames ==> !Covers(r, v)
      modifies tables`mem, tables`roles, tables.pfn.bitmap
      ensures tables.Valid() && FramesOk(fr)
      ensures !ok ==> fr == frames && old(tables.pfn.FreeFrames()) < 4 * r.pages
      ensures ok ==> forall v: int :: v in fr <==> v in frames || Covers(r, v)
      ensures forall v :: v in frames ==> fr[v] == frames[v]
      ensures forall v :: v in fr && v !in frames ==> fr[v] !in old(tables.pfn.Used())
    {
      hide WellFormed, FramesOk, MappedPart;
      PartLimits(r);
      fr := frames;
      for p := 0 to r.pages
        invariant tables.Valid() && FramesOk(fr) && old(tables.pfn.Used()) <= tables.pfn.Used()
        invariant tables.pfn.FreeFrames() >= old(tables.pfn.FreeFrames()) - 4 * p
        invariant forall v: int :: v in fr <==> v in frames || MappedPart(r, p, v)
        invariant forall v :: v in frames ==> fr[v] == frames[v]
        invariant forall v :: v in fr && v !in frames ==> fr[v] !in old(tables.pfn.Used())
      {
        PageOfRange(r, p);
        ok, fr := BackPage(r.va + p * FRAME_SIZE, fr);
        if !ok {
          ghost var mapped := fr;
          fr := UnmapFirst(r, p, mapped);
          OnlyPartTaken(frames, mapped, fr, r, p);
          return;
        }
      }
      ok := true;
    }

    /** The bytes of `size` from `va` on are mapped, each page of them to its frame. */
    ghost predicate Backed(va: nat, size: nat)
      reads this, tables
    {
      forall b: nat :: va <= b < va + size ==>
        PageBase(b) in frames && Translate(tables.mem, b) == frames[PageBase(b)] + b % FRAME_SIZE
    }

    lemma LiveIsBacked(va: nat, size: nat)
      requires Valid() && Range(va, PagesFor(size)) in live
      ensures Backed(va, size) && va + size <= VA_TOP
    {
      LiveRange(Range(va, PagesFor(size)));
      BytesOfRange(va, size);
      PagesCover(size);
      hide Coverage, Disjoint, WellFormed, Translate, PagesFor, LeafOf, PageTableOf, PagesOk, LowPages;
      forall b: nat | va <= b < va + size
        ensures PageBase(b) in frames && Translate(tables.mem, b) == frames[PageBase(b)] + b % FRAME_SIZE
      {
        MappedPage(tables.mem, tables.roles, tables.pfn.Used(), frames, PageBase(b));
        MappedFrame(frames, PageBase(b));
        ByteOfPage(tables.mem, tables.roles, tables.pfn.Used(), PageBase(b), frames[PageBase(b)], b);
      }
    }

    /** Maps the pages of `size` bytes, each to a frame nobody had, in a range nobody has,
        and no page that holds none of the bytes; or, giving 0, leaves every live range and
        its frames as they were. */
    method Alloc(size: nat) returns (va: nat)
      requires Valid()
      modifies this, tables`mem, tables`roles, tables.pfn.bitmap
      ensures Valid()
      ensures va == 0 ==> live == old(live) && frames == old(frames)
      ensures va == 0 ==>
                || old(nextFreeVa) + PagesFor(size) * FRAME_SIZE > VA_TOP
                || old(tables.pfn.FreeFrames()) < 4 * PagesFor(size)
      ensures va != 0 ==> live == old(live) + multiset{Range(va, PagesFor(size))}
      ensures forall v :: v in old(frames) ==> v in frames && frames[v] == old(frames)[v]
      ensures va != 0 ==> Backed(va, size) && va + size <= VA_TOP
      ensures forall v :: v in frames && v !in old(frames) ==>
                va <= v < va + size && frames[v] !in old(tables.pfn.Used())
    {
      hide Disjoint, WellFormed, FramesOk, Coverage, Covers, PagesFor, TableFrame, Backed;
      var pages := PagesFor(size);
      va := Reserve(pages);
      if va == 0 {
        return;
      }
      var r := Range(va, pages);
      ReservedIsUnmapped(live, multiset(freeRanges), frames, r, nextFreeVa);
      BytesOfRange(va, size);
      var ok, mapped := MapRange(r);
      if !ok {
        return 0;
      }
      CoverageGrows(live, frames, r, mapped);
      frames := mapped;
      assert live + multiset{r} + multiset(freeRanges) == live + multiset(freeRanges) + multiset{r};
      live := live + multiset{r};
      LiveIsBacked(va, size);
    }

    /** No page of the range is mapped. */
    ghost predicate Vacant(r: Range)
      reads tables
    {
      forall v: nat :: Covers(r, v) ==> Translate(tables.mem, v) == 0
    }

    ghost predicate TablesAsBefore(m: Memory, roles: Roles, used: set<int>)
      reads tables, tables.pfn, tables.pfn.bitmap
      requires tables.pfn.Valid()
    {
      tables.mem == m && tables.roles == roles && tables.pfn.Used() == used
    }

    /** One turn of the loop of VirtualFree: a mapped page loses its frame. */
    method ReleasePage(v: nat, ghost before: map<int, int>)
      requires tables.Valid() && FramesOk(before) && (v in before || Translate(tables.mem, v) == 0)
      modifies tables`mem, tables`roles, tables.pfn.bitmap
      ensures tables.Valid() && FramesOk(before - {v})
      ensures v in before ==> Gone(v, before[v])
      ensures v !in before ==> TablesAsBefore(old(tables.mem), old(tables.roles), old(tables.pfn.Used()))
      ensures forall w, f :: OtherPage(v, w) && old(Gone(w, f)) ==> Gone(w, f)
    {
      hide WellFormed, FramesOk, OtherPage, Gone, Translate;
      if v in before {
        MappedFrame(before, v);
      }
      var pa := Translate(tables.mem, v);
      if pa != 0 {
        UnbackPage(v, before);
      } else {
        assert before - {v} == before;
      }
    }

    lemma VacantIsUnmapped(r: Range, fr: map<int, int>)
      requires tables.Valid() && FramesOk(fr) && Vacant(r)
      ensures forall v :: v in fr ==> !Covers(r, v)
    {
      forall v | v in fr ensures !Covers(r, v) {
        MappedFrame(fr, v);
      }
    }

    /** The first `p` pages of the range are gone, the other pages as they were. */
    ghost predicate Released(r: Range, p: nat, fr: map<int, int>)
      requires tables.Valid()
      reads this, tables, tables.pfn, tables.pfn.bitmap
    {
      && FramesOk(fr)
      && (forall v :: v in fr <==> v in frames && !MappedPart(r, p, v))
      && (forall v :: v in fr ==> fr[v] == frames[v])
      && (forall v :: v in frames && v !in fr ==> Gone(v, frames[v]))
    }

    ghost predicate Releasable(r: Range) reads this {
      r.va % FRAME_SIZE == 0 && r.End() <= VA_TOP && forall v :: Covers(r, v) ==> v in frames
    }

    ghost predicate Releasing(r: Range, p: nat, fr: map<int, int>, vacant: bool)
      requires tables.Valid()
      reads this, tables, tables.pfn, tables.pfn.bitmap
    {
      if vacant then Vacant(r) && fr == frames && FramesOk(fr) else Releasable(r) && Released(r, p, fr)
    }

    method ReleaseNth(r: Range, p: nat, ghost before: map<int, int>, ghost vacant: bool)
      requires tables.Valid() && p < r.pages && Releasing(r, p, before, vacant)
      modifies tables`mem, tables`roles, tables.pfn.bitmap
      ensures tables.Valid() && Releasing(r, p + 1, before - {r.va + p * FRAME_SIZE}, vacant)
      ensures vacant ==> TablesAsBefore(old(tables.mem), old(tables.roles), old(tables.pfn.Used()))
    {
      hide WellFormed, FramesOk, MappedPart, Covers, OtherPage, Gone, Translate, Range.End;
      PageOfRange(r, p);
      if vacant {
        VacantIsUnmapped(r, frames);
        assert frames - {r.va + p * FRAME_SIZE} == frames;
      }
      ReleasePage(r.va + p * FRAME_SIZE, before);
    }

    method ReleaseRange(r: Range) returns (ghost fr: map<int, int>)
      requires tables.Valid() && FramesOk(frames) && (Releasable(r) || Vacant(r))
      modifies tables`mem, tables`roles, tables.pfn.bitmap
      ensures tables.Valid() && FramesOk(fr)
      ensures forall v :: v in fr <==> v in frames && !Covers(r, v)
      ensures forall v :: v in fr ==> fr[v] == frames[v]
      ensures forall v :: v in frames && v !in fr ==> Gone(v, frames[v])
      ensures old(Vacant(r)) ==> TablesAsBefore(old(tables.mem), old(tables.roles), old(tables.pfn.Used()))
    {
      PartLimits(r);
      ghost var vacant := Vacant(r);
      if vacant {
        VacantIsUnmapped(r, frames);
      }
      hide WellFormed, FramesOk, MappedPart, Covers, OtherPage, Gone, Translate;
      fr := frames;
      for p := 0 to r.pages
        invariant tables.Valid() && Releasing(r, p, fr, vacant)
        invariant vacant ==> TablesAsBefore(old(tables.mem), old(tables.roles), old(tables.pfn.Used()))
      {
        ReleaseNth(r, p, fr, vacant);
        fr := fr - {r.va + p * FRAME_SIZE};
      }
    }

    lemma MappedFrame(fr: map<int, int>, v: nat)
      requires tables.Valid() && FramesOk(fr) && v in fr
      ensures Translate(tables.mem, v) == fr[v] != 0
    {
    }

    lemma LiveRange(r: Range)
      requires Valid() && r in live
      ensures tables.Valid() && FramesOk(frames) && r.va % FRAME_SIZE == 0 && r.End() <= VA_TOP
      ensures forall v :: Covers(r, v) ==> v in frames
    {
      assert r in live + multiset(freeRanges);
    }

    lemma FreedTwice(all: multiset<Range>, top: nat, r: Range)
      ensures r in all && r.pages > 0 ==> !Disjoint(all + multiset{r}, top)
    {
      assert r in all ==> (all + multiset{r})[r] > 1;
    }

    lemma FreedBytes(r: Range, size: nat, was: map<int, int>)
      requires tables.Valid() && r.va % FRAME_SIZE == 0 && r.pages == PagesFor(size)
      requires forall v :: Covers(r, v) ==> v in was && Gone(v, was[v])
      ensures forall b: nat :: r.va <= b < r.va + size ==> Translate(tables.mem, b) == 0
    {
      BytesOfRange(r.va, size);
      hide PagesFor, Covers, Translate, SamePage;
      forall b: nat | r.va <= b < r.va + size ensures Translate(tables.mem, b) == 0 {
        ByteIndices(b);
        assert Gone(PageBase(b), was[PageBase(b)]);
      }
    }

    /** Gives back a live range: its pages are unmapped and their frames are free again,
        every other live page keeps its frame. A range without mapped pages is only put
        among the free ones, which keeps them apart exactly when it is apart from all
        others, and so not when it is given back twice. */
    method Free(va: nat, size: nat)
      requires Valid() && (Range(va, PagesFor(size)) in live || Vacant(Range(va, PagesFor(size))))
      modifies this, tables`mem, tables`roles, tables.pfn.bitmap
      ensures Range(va, PagesFor(size)) in old(live) ==>
                Valid() && live == old(live) - multiset{Range(va, PagesFor(size))}
      ensures freeRanges == old(freeRanges) + [Range(va, PagesFor(size))] && nextFreeVa == old(nextFreeVa)
      ensures forall v :: v in frames <==> v in old(frames) && !Covers(Range(va, PagesFor(size)), v)
      ensures forall v :: v in frames ==> frames[v] == old(frames)[v]
      ensures forall v :: v in old(frames) && v !in frames ==> tables.Valid() && Gone(v, old(frames)[v])
      ensures Range(va, PagesFor(size)) in old(live) ==>
                forall b: nat :: va <= b < va + size ==> Translate(tables.mem, b) == 0
      ensures Range(va, PagesFor(size)) !in old(live) ==>
                && live == old(live) && frames == old(frames) && tables.mem == old(tables.mem)
                && (Valid() <==>
                      Disjoint(old(live + multiset(freeRanges)) + multiset{Range(va, PagesFor(size))}, nextFreeVa))
                && (PagesFor(size) > 0 && Range(va, PagesFor(size)) in old(freeRanges) ==> !Valid())
    {
      hide Disjoint, Coverage, WellFormed, FramesOk, Covers, Gone, PagesFor, Translate, Vacant, PageTables.Valid;
      var r := Range(va, PagesFor(size));
      ghost var all := live + multiset(freeRanges);
      if r in live {
        LiveRange(r);
      } else {
        VacantIsUnmapped(r, frames);
        FreedTwice(all, nextFreeVa, r);
      }
      ghost var fr := ReleaseRange(r);
      if r in live {
        assert forall v :: Covers(r, v) ==> Gone(v, frames[v]);
        FreedBytes(r, size, frames);
        CoverageShrinks(live, multiset(freeRanges), frames, r, nextFreeVa, fr);
        live := live - multiset{r};
        assert live + multiset(freeRanges + [r]) == all;
      } else {
        assert live + multiset(freeRanges + [r]) == all + multiset{r};
        NothingTaken(frames, fr, r);
      }
      freeRanges := freeRanges + [r];
      frames := fr;
      assert tables.Valid() && FramesOk(frames);
      assert r in old(live) ==> Coverage(live, frames) && Disjoint(live + multiset(freeRanges), nextFreeVa);
    }

    /** What VirtualAlloc promises its clients together: live ranges lie in the window
        and apart from each other, and every live page has a frame of its own, which is
        handed out and is not a page table, with a leaf entry that is present and writable;
        so are the entries above it. */
    ghost predicate Separate()
      requires tables.Valid()
      reads this, tables, tables.pfn, tables.pfn.bitmap
    {
      && (forall r :: r in live ==> InWindow(r, VA_TOP) && (r.pages > 0 ==> live[r] == 1))
      && (forall r, s :: r in live && s in live && r != s ==> Apart(r, s))
      && (forall r, v :: r in live && Covers(r, v) ==>
            Translate(tables.mem, v) in tables.pfn.Used() && Translate(tables.mem, v) !in tables.roles)
      && (forall r, v :: r in live && Covers(r, v) ==> LeafOf(tables.mem, v) == Translate(tables.mem, v) + 3)
      && AllWritable(tables.mem, tables.roles)
      && (forall r, s, v, w :: r in live && s in live && Covers(r, v) && Covers(s, w) && v != w ==>
            Translate(tables.mem, v) != Translate(tables.mem, w))
    }

    lemma ValidIsSeparate()
      requires Valid()
      ensures Separate()
    {
      var all := live + multiset(freeRanges);
      assert forall r :: r in live ==> r in all && live[r] <= all[r];
      hide Translate, WellFormed, LeafOf, AllWritable;
    }
  }

  datatype Request = AllocRequest(size: nat) | FreeRequest(va: nat, size: nat)

  /** What a client holds: the bytes of `size` from `va` on. */
  datatype Grant = Grant(va: nat, size: nat)

  function Ranges(held: seq<Grant>): (rs: seq<Range>)
    ensures |rs| == |held| && forall i :: 0 <= i < |held| ==> rs[i] == RangeOf(held[i])
  {
    seq(|held|, i requires 0 <= i < |held| => RangeOf(held[i]))
  }

  function PagesHeld(held: seq<Grant>): multiset<Range> { multiset(Ranges(held)) }

  function RangeOf(g: Grant): Range { Range(g.va, PagesFor(g.size)) }

  lemma HeldAt(held: seq<Grant>, i: nat)
    requires i < |held|
    ensures RangeOf(held[i]) in PagesHeld(held)
    ensures PagesHeld(held[..i] + held[i + 1..]) == PagesHeld(held) - multiset{RangeOf(held[i])}
  {
    hide RangeOf;
    var rs := Ranges(held);
    TakeFrom(rs, i);
    assert Ranges(held[..i] + held[i + 1..]) == rs[..i] + rs[i + 1..];
    assert rs[i] in multiset(rs);
  }

  lemma HeldMore(held: seq<Grant>, g: Grant)
    ensures PagesHeld(held + [g]) == PagesHeld(held) + multiset{RangeOf(g)}
  {
    hide RangeOf;
    assert Ranges(held + [g]) == Ranges(held) + [RangeOf(g)];
  }

  /** Two entries that are held make their range live twice, or two ranges live. */
  lemma HeldTwice(held: seq<Grant>, i: nat, j: nat)
    requires i < j < |held|
    ensures RangeOf(held[i]) == RangeOf(held[j]) ==> PagesHeld(held)[RangeOf(held[i])] >= 2
    ensures RangeOf(held[i]) in PagesHeld(held) && RangeOf(held[j]) in PagesHeld(held)
  {
    HeldAt(held, i);
    HeldAt(held, j);
    var left := held[..i] + held[i + 1..];
    assert left[j - 1] == held[j];
    HeldAt(left, j - 1);
  }

  /** What two clients hold has no byte in common. */
  lemma GrantsApart(space: AddressSpace, held: seq<Grant>, i: nat, j: nat)
    requires space.Valid() && space.live == PagesHeld(held) && i < j < |held|
    requires held[i].size > 0 && held[j].size > 0
    ensures held[i].va + held[i].size <= held[j].va || held[j].va + held[j].size <= held[i].va
  {
    space.ValidIsSeparate();
    HeldTwice(held, i, j);
    PagesCover(held[i].size);
    PagesCover(held[j].size);
    var r, s := RangeOf(held[i]), RangeOf(held[j]);
    assert space.live[r] >= 1 && space.live[s] >= 1;
    hide PagesFor, PagesHeld;
    assert r != s ==> Apart(r, s);
  }

  method FindGrant(held: seq<Grant>, g: Grant) returns (i: nat)
    ensures i <= |held| && (i < |held| ==> held[i] == g)
    ensures i == |held| ==> g !in held
  {
    i := 0;
    while i < |held| && held[i] != g
      invariant i <= |held| && forall j :: 0 <= j < i ==> held[j] != g
    {
      i := i + 1;
    }
  }

  /** Any sequence of allocations and matching frees, successful or not: the bytes that
      are held are mapped and no two clients share one. */
  method Serve(space: AddressSpace, requests: seq<Request>) returns (held: seq<Grant>)
    requires space.Valid() && space.live == multiset{}
    modifies space, space.tables`mem, space.tables`roles, space.tables.pfn.bitmap
    ensures space.Valid() && space.live == PagesHeld(held) && space.Separate()
    ensures forall g :: g in held ==> space.Backed(g.va, g.size)
    ensures forall i, j :: 0 <= i < j < |held| && held[i].size > 0 && held[j].size > 0 ==>
              held[i].va + held[i].size <= held[j].va || held[j].va + held[j].size <= held[i].va
  {
    held := [];
    for k := 0 to |requests|
      invariant space.Valid() && space.live == PagesHeld(held)
    {
      hide Disjoint, Coverage;
      match requests[k]
      case AllocRequest(size) =>
        var va := space.Alloc(size);
        if va != 0 {
          HeldMore(held, Grant(va, size));
          held := held + [Grant(va, size)];
        }
      case FreeRequest(va, size) =>
        var i := FindGrant(held, Grant(va, size));
        if i < |held| {
          HeldAt(held, i);
          space.Free(va, size);
          held := held[..i] + held[i + 1..];
        }
    }
    space.ValidIsSeparate();
    HeldIsFine(space, held);
  }

  lemma HeldIsFine(space: AddressSpace, held: seq<Grant>)
    requires space.Valid() && space.live == PagesHeld(held)
    ensures forall g :: g in held ==> space.Backed(g.va, g.size)
    ensures forall i, j :: 0 <= i < j < |held| && held[i].size > 0 && held[j].size > 0 ==>
              held[i].va + held[i].size <= held[j].va || held[j].va + held[j].size <= held[i].va
  {
    hide PagesHeld;
    forall g | g in held ensures space.Backed(g.va, g.size) {
      var i :| 0 <= i < |held| && held[i] == g;
      HeldAt(held, i);
      space.LiveIsBacked(g.va, g.size);
    }
    forall i, j | 0 <= i < j < |held| && held[i].size > 0 && held[j].size > 0
      ensures held[i].va + held[i].size <= held[j].va || held[j].va + held[j].size <= held[i].va
    {
      GrantsApart(space, held, i, j);
    }
  }

  lemma ArenaPage(pa: int)
    ensures InArena(pa) ==> PageOf(pa) == pa
  {
  }

  lemma KeepsSafe(m: Memory, m': Memory)
    requires TablesStay(m, m')
    ensures forall v: nat :: SplitSafe(m, v) ==> SplitSafe(m', v)
  {
  }

  lemma MoreUsed(m: Memory, roles: Roles, used: set<int>, used': set<int>, frames: map<int, int>)
    requires PagesOk(m, roles, used, frames) && used <= used'
    ensures PagesOk(m, roles, used', frames)
  {
    hide Translate, PageTableOf, LeafOf;
  }

  lemma FreshFrame(m: Memory, roles: Roles, used: set<int>, frames: map<int, int>, frame: int)
    requires PagesOk(m, roles, used, frames) && frame !in used
    ensures forall v :: v in frames ==> frames[v] != frame
  {
    hide Translate, PageTableOf, LeafOf;
  }

  /** After a page was mapped to a new frame, it and all others are in order. */
  lemma PagesBacked(m: Memory, roles: Roles, used: set<int>, m': Memory, roles': Roles, used': set<int>,
                    v: nat, frame: nat, before: map<int, int>)
    requires WellFormed(m, roles) && AllWritable(m, roles) && PagesOk(m, roles, used, before)
    requires LeafEdited(m, roles, m', roles', v) && TablesStay(m, m') && Maps(m, m', v, frame, 3)
    requires forall f :: f in roles ==> f in roles' && roles'[f] == roles[f]
    requires used' == used + (roles'.Keys - roles.Keys) && (roles'.Keys - roles.Keys) !! used
    requires Linked(m', roles', PageTableOf(m', v), v)
    requires var e := LeafOf(m', v); e % 0x1000 == 3 && e - e % 0x1000 == frame - frame % 0x1000
    requires v % FRAME_SIZE == 0 && v < VA_TOP && v !in before && InArena(frame)
    requires frame in used && frame !in roles && forall w :: w in before ==> before[w] != frame
    ensures PagesOk(m', roles', used', before[v := frame]) && AllWritable(m', roles')
  {
    hide WellFormed, LeafEdited, AllWritable, Translate, PageTableOf, LeafOf, Maps, WritableAt, Pml4Index, PdptIndex;
    BackedLeaf(m', v, frame);
    forall w | w in before ensures OtherPage(v, w) && PageTableOf(m, w) != 0 && PageOk(m, roles, used, w, before[w]) {
    }
    MappedTranslates(m, m', v, frame, 3, before);
    LeavesAfterStore(m, roles, m', roles', v, before);
    forall w | w in before ensures PageOk(m', roles', used', w, before[w]) {
      assert PageOk(m, roles, used, w, before[w]);
    }
  }

  lemma MappedPage(m: Memory, roles: Roles, used: set<int>, frames: map<int, int>, v: nat)
    requires PagesOk(m, roles, used, frames) && v in frames
    ensures PageOk(m, roles, used, v, frames[v])
  {
    hide Translate, PageTableOf, LeafOf;
  }

  /** Without the page, its frame is not needed. */
  lemma FrameApart(m: Memory, roles: Roles, used: set<int>, frames: map<int, int>, v: nat)
    requires PagesOk(m, roles, used, frames) && v in frames
    ensures PagesOk(m, roles, used - {frames[v]}, frames - {v})
  {
    hide Translate, PageTableOf, LeafOf;
  }

  /** After a page was unmapped, no byte of it is mapped, and all others are in order. */
  lemma PagesUnbacked(m: Memory, roles: Roles, used: set<int>, m': Memory, roles': Roles, used': set<int>,
                      v: nat, others: map<int, int>)
    requires WellFormed(m, roles) && AllWritable(m, roles) && PagesOk(m, roles, used, others)
    requires LeafEdited(m, roles, m', roles', v) && TablesStay(m, m') && Unmaps(m, m', v)
    requires forall f :: f in roles ==> f in roles' && roles'[f] == roles[f]
    requires used' == used + (roles'.Keys - roles.Keys) && (roles'.Keys - roles.Keys) !! used
    requires Linked(m', roles', PageTableOf(m', v), v) && LeafOf(m', v) == 0
    requires v % FRAME_SIZE == 0 && v < VA_TOP && v !in others
    ensures PagesOk(m', roles', used', others) && AllWritable(m', roles') && Blank(m', v)
  {
    hide WellFormed, LeafEdited, AllWritable, Translate, PageTableOf, LeafOf, WritableAt, SamePage, Linked;
    UnbackedLeaf(m', v);
    forall w | w in others
      ensures OtherPage(v, w) && PageTableOf(m, w) != 0 && PageOk(m, roles, used, w, others[w]) && !SamePage(v, w)
    {
      PagesApart(v, w);
    }
    LeavesAfterStore(m, roles, m', roles', v, others);
    forall w | w in others ensures PageOk(m', roles', used', w, others[w]) {
      assert PageOk(m, roles, used, w, others[w]) && !SamePage(v, w);
    }
  }

  lemma StaysBlank(m: Memory, m': Memory, v: nat, w: nat)
    requires Unmaps(m, m', v) && Blank(m, w)
    ensures Blank(m', w)
  {
    hide Translate, Pml4Index, PdptIndex, PdIndex, PtIndex;
  }

  lemma PagesKept(m: Memory, roles: Roles, used: set<int>, m': Memory, roles': Roles, used': set<int>,
                  before: map<int, int>)
    requires WellFormed(m, roles) && AllWritable(m, roles) && PagesOk(m, roles, used, before)
    requires Edited(m, roles, m', roles') && SameTables(m, m')
    requires forall f :: f in roles ==> f in roles' && roles'[f] == roles[f]
    requires used' == used + (roles'.Keys - roles.Keys) && (roles'.Keys - roles.Keys) !! used
    ensures PagesOk(m', roles', used', before) && AllWritable(m', roles')
  {
    hide WellFormed, Edited, AllWritable, Translate, PageTableOf, LeafOf;
    forall w | w in before ensures w >= 0 && PageTableOf(m, w) != 0 {
      assert PageOk(m, roles, used, w, before[w]);
    }
    LeavesAfterFailure(m, roles, m', roles', before);
    forall w | w in before ensures PageOk(m', roles', used', w, before[w]) {
      assert PageOk(m, roles, used, w, before[w]);
    }
  }

  /** The walks of the bytes of a page are one walk. */
  lemma WalkOfPage(m: Memory, v: nat, w: nat)
    requires SamePage(v, w)
    ensures PageTableOf(m, w) == PageTableOf(m, v) && LeafOf(m, w) == LeafOf(m, v)
    ensures PageTableOf(m, v) != 0 ==> Translate(m, w) == LeafTranslation(LeafOf(m, w), w)
  {
    hide ToInt32, Present, Large, PageOf, LargeBaseOf, ReadEntry, Pml4Index, PdptIndex, PdIndex, PtIndex;
  }

  lemma ByteIndices(b: nat)
    ensures SamePage(PageBase(b), b)
  {
    var q, r := b / FRAME_SIZE, b % FRAME_SIZE;
    var v := PageBase(b);
    assert v == FRAME_SIZE * q && b == FRAME_SIZE * q + r && v / FRAME_SIZE == q;
    DivideTwice(b, 0x1000);
    DivideTwice(v, 0x1000);
    DivideTwice(b, 0x20_0000);
    DivideTwice(v, 0x20_0000);
    DivideTwice(b, 0x4000_0000);
    DivideTwice(v, 0x4000_0000);
  }

  /** Every byte of a page is translated to the byte of its frame. */
  lemma ByteOfPage(m: Memory, roles: Roles, used: set<int>, v: nat, frame: int, b: nat)
    requires PageOk(m, roles, used, v, frame) && PageBase(b) == v && frame != 0
    ensures Translate(m, b) == frame + b % FRAME_SIZE && LeafOf(m, b) == frame + 3
  {
    ByteIndices(b);
    ByteIndices(v);
    assert PageBase(v) == v;
    WalkOfPage(m, v, b);
    WalkOfPage(m, v, v);
    hide Translate, LeafOf, PageTableOf, SamePage, PageOf;
  }

  /** The bytes of a request are those of the pages of its range, and each of these pages
      holds one of them. */
  lemma BytesOfRange(va: nat, size: nat)
    requires va % FRAME_SIZE == 0
    ensures forall b: nat :: va <= b < va + size ==> Covers(Range(va, PagesFor(size)), PageBase(b))
    ensures forall v :: Covers(Range(va, PagesFor(size)), v) ==> va <= v < va + size && v % FRAME_SIZE == 0
  {
    PagesCover(size);
    hide PagesFor;
    var pages := PagesFor(size);
    forall b: nat | va <= b < va + size ensures Covers(Range(va, pages), PageBase(b)) {
      OnlyWholePages(PageBase(b) - va, b - va);
      AlignedDifference(PageBase(b), va);
    }
    forall v | Covers(Range(va, pages), v) ensures va <= v < va + size && v % FRAME_SIZE == 0 {
      PageStart(v - va, pages);
      AlignedSum(v - va, va);
    }
  }

  lemma AlignedDifference(x: nat, y: nat)
    requires x % FRAME_SIZE == 0 && y % FRAME_SIZE == 0
    ensures (x - y) % FRAME_SIZE == 0
  {
  }

  lemma AlignedSum(x: int, y: int)
    requires x % FRAME_SIZE == 0 && y % FRAME_SIZE == 0
    ensures (x + y) % FRAME_SIZE == 0
  {
  }

  lemma OnlyWholePages(x: int, y: nat)
    requires x % FRAME_SIZE == 0 && x <= y < x + FRAME_SIZE
    ensures x >= 0
  {
  }

  lemma PageStart(x: int, pages: nat)
    requires x % FRAME_SIZE == 0 && 0 <= x < pages * FRAME_SIZE
    ensures x + FRAME_SIZE <= pages * FRAME_SIZE
  {
    assert x == FRAME_SIZE * (x / FRAME_SIZE);
  }

  /** Mapping the new page `v` leaves the translations of the other pages alone. */
  lemma MappedTranslates(m: Memory, m': Memory, v: nat, frame: nat, flags: nat, others: map<int, int>)
    requires InArena(frame) && flags == 3 && v % FRAME_SIZE == 0 && v < VA_TOP && v !in others
    requires Maps(m, m', v, frame, flags)
    requires forall w :: w in others ==> w % FRAME_SIZE == 0 && 0 <= w < VA_TOP
    ensures Translate(m', v) == frame
    ensures forall w :: w in others ==> Translate(m', w) == Translate(m, w)
  {
    hide Translate;
    forall w | w in others ensures !SamePage(v, w) {
      PagesApart(v, w);
    }
    assert SamePage(v, v);
  }

  lemma KeepsRoles(roles: Roles, used: set<int>, roles': Roles, used': set<int>)
    requires Grew(roles, used, roles', used')
    ensures forall f :: f in roles ==> f in roles' && roles'[f] == roles[f]
    ensures used' == used + (roles'.Keys - roles.Keys) && (roles'.Keys - roles.Keys) !! used
  {
  }

  /** A backed page has its frame in its leaf entry, present and writable. */
  lemma BackedLeaf(m: Memory, v: nat, frame: nat)
    requires InArena(frame)
    requires var e := LeafOf(m, v); e % 0x1000 == 3 && e - e % 0x1000 == frame - frame % 0x1000
    ensures LeafOf(m, v) == frame + 3 && WritableAt(m, PageTableOf(m, v), PtIndex(v))
  {
    hide PageTableOf, PtIndex, Entry, Present;
    ThreeIsWritable(LeafOf(m, v));
  }

  lemma UnbackedLeaf(m: Memory, v: nat)
    ensures LeafOf(m, v) == 0 ==> WritableAt(m, PageTableOf(m, v), PtIndex(v))
  {
    hide PageTableOf, PtIndex, Entry;
  }

  /** The store of one leaf leaves those of the other pages alone. */
  lemma LeavesAfterStore(m: Memory, roles: Roles, m': Memory, roles': Roles, v: nat, others: map<int, int>)
    requires WellFormed(m, roles) && LeafEdited(m, roles, m', roles', v) && TablesStay(m, m') && AllWritable(m, roles)
    requires forall f :: f in roles ==> f in roles' && roles'[f] == roles[f]
    requires Linked(m', roles', PageTableOf(m', v), v) && WritableAt(m', PageTableOf(m', v), PtIndex(v))
    requires v % FRAME_SIZE == 0 && v < VA_TOP
    requires forall w :: w in others ==> OtherPage(v, w) && PageTableOf(m, w) != 0
    ensures AllWritable(m', roles')
    ensures forall w :: w in others ==> LeafOf(m', w) == LeafOf(m, w)
  {
    hide WellFormed, LeafEdited, TablesStay, AllWritable, Linked, LeafOf, PageTableOf, WritableAt, SamePage;
    StaysWritable(m, roles, m', roles', v);
    forall w | w in others ensures LeafOf(m', w) == LeafOf(m, w) {
      PagesApart(v, w);
      OtherLeavesStay(m, roles, m', roles', v, w);
    }
  }

  lemma LeavesAfterFailure(m: Memory, roles: Roles, m': Memory, roles': Roles, others: map<int, int>)
    requires WellFormed(m, roles) && Edited(m, roles, m', roles') && TablesStay(m, m') && AllWritable(m, roles)
    requires forall w :: w in others ==> w >= 0 && PageTableOf(m, w) != 0
    ensures AllWritable(m', roles')
    ensures forall w :: w in others ==> LeafOf(m', w) == LeafOf(m, w)
  {
    hide WellFormed, Edited, TablesStay, AllWritable, LeafOf, PageTableOf;
    EditsStayWritable(m, roles, m', roles');
    forall w | w in others ensures LeafOf(m', w) == LeafOf(m, w) {
      LeafStays(m, roles, m', roles', w);
    }
  }
}
