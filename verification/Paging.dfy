/** x86-64 four-level page tables edited in flat physical memory. The shape of the
    tree is a ghost map from table frames to roles: because a frame has one role, an
    entry that leads to it can only be the one entry its role names, and so a store to
    an entry changes the translations below that entry and no others. */
module Paging {
  import opened Doubles
  import opened Physical
  import opened Pfn

  const PAGE_PRESENT := 0x01
  const PAGE_RW := 0x02
  const PAGE_PS := 0x80
  const PML4 := 0x7_0000

  // ---- arithmetic of entries and addresses -----------------------------------

  /** `x & 0xFFFFF000` and `x & 0xFFFFFFE00000` on 32-bit two's complement. */
  function PageOf(x: int): int { ToInt32(x) - ToInt32(x) % 0x1000 }

  function LargeBaseOf(x: int): int { ToInt32(x) - ToInt32(x) % 0x20_0000 }

  predicate Present(entry: int) { entry % 2 == 1 }

  predicate Large(entry: int) { entry / PAGE_PS % 2 == 1 }

  function Pml4Index(va: nat): (i: nat) ensures i < 512 { va / 0x80_0000_0000 % 512 }

  function PdptIndex(va: nat): (i: nat) ensures i < 512 { va / 0x4000_0000 % 512 }

  function PdIndex(va: nat): (i: nat) ensures i < 512 { va / 0x20_0000 % 512 }

  function PtIndex(va: nat): (i: nat) ensures i < 512 { va / 0x1000 % 512 }

  /** An entry is read as a JavaScript number, and every number is stored modulo 2^64. */
  function ReadEntry(m: Memory, a: int): nat { DoubleOf(Read64(m, a)) }

  function WriteEntry(m: Memory, a: int, v: int): Memory { Write64(m, a, v % TWO64) }

  /** What is read back after `v` was stored. */
  function Stored(v: int): nat { DoubleOf(v % TWO64) }

  /** Entry `i` of the table in `frame`. */
  function Entry(m: Memory, frame: int, i: int): nat { ReadEntry(m, frame + 8 * i) }

  // ---- the walk --------------------------------------------------------------

  /** The address of the PD entry of `va`, or 0 when a level above is missing. */
  function PdEntryAddress(m: Memory, va: nat): int {
    var pml4Entry := Entry(m, PML4, Pml4Index(va));
    if !Present(pml4Entry) then 0
    else
      var pdptEntry := Entry(m, PageOf(pml4Entry), PdptIndex(va));
      if !Present(pdptEntry) then 0
      else PageOf(pdptEntry) + PdIndex(va) * 8
  }

  function Translate(m: Memory, va: nat): int {
    var pdEa := PdEntryAddress(m, va);
    if pdEa == 0 then 0
    else
      var pdEntry := ReadEntry(m, pdEa);
      if !Present(pdEntry) then 0
      else if Large(pdEntry) then LargeBaseOf(pdEntry) + va % 0x20_0000
      else
        var ptEntry := Entry(m, PageOf(pdEntry), PtIndex(va));
        if !Present(ptEntry) then 0 else PageOf(ptEntry) + va % 0x1000
  }

  /** The frame of the page table that the PD entry of `va` names, 0 without one. */
  function PageTableOf(m: Memory, va: nat): int {
    var ea := PdEntryAddress(m, va);
    if ea == 0 || !Present(ReadEntry(m, ea)) || Large(ReadEntry(m, ea)) then 0 else PageOf(ReadEntry(m, ea))
  }

  /** No page table is taken away, and no address comes to lie in a large page at or
      above 2 GB. */
  ghost predicate TablesStay(m: Memory, m': Memory) {
    && (forall va: nat :: PageTableOf(m, va) != 0 ==> PageTableOf(m', va) == PageTableOf(m, va))
    && (forall va: nat :: SplitSafe(m, va) ==> SplitSafe(m', va))
  }

  ghost predicate SameTranslations(m: Memory, m': Memory) {
    forall va: nat :: Translate(m', va) == Translate(m, va)
  }

  ghost predicate SameTables(m: Memory, m': Memory) {
    SameTranslations(m, m') && TablesStay(m, m')
  }

  /** The two addresses are on the same 4 KB page of the 48-bit space. */
  predicate SamePage(va: nat, va': nat) {
    && Pml4Index(va) == Pml4Index(va') && PdptIndex(va) == PdptIndex(va')
    && PdIndex(va) == PdIndex(va') && PtIndex(va) == PtIndex(va')
  }

  /** The two addresses have the same PD entry. */
  predicate SameLargePage(va: nat, va': nat) {
    Pml4Index(va) == Pml4Index(va') && PdptIndex(va) == PdptIndex(va') && PdIndex(va) == PdIndex(va')
  }

  /** If `va` is in a large page, that page lies below 2 GB: above, the 32-bit result
      of `largeBase + i * 0x1000` is negative. */
  predicate SplitSafe(m: Memory, va: nat) {
    var ea := PdEntryAddress(m, va);
    ea != 0 && Present(ReadEntry(m, ea)) && Large(ReadEntry(m, ea)) ==> LargeBaseOf(ReadEntry(m, ea)) >= 0
  }

  /** The large page of `va`, if there is one, was split: its addresses keep their
      translations below 2 GB and lose them above, the other addresses keep theirs. */
  ghost predicate AfterSplit(m: Memory, m': Memory, va: nat) {
    forall v: nat ::
      Translate(m', v) == if SameLargePage(va, v) && !SplitSafe(m, va) then 0 else Translate(m, v)
  }

  // ---- well-formed trees -----------------------------------------------------

  datatype Role = Root | Pdpt(i4: nat) | Pd(i4: nat, i3: nat) | Pt(i4: nat, i3: nat, i2: nat)

  type Roles = map<int, Role>

  function Child(r: Role, i: nat): Role
    requires !r.Pt?
  {
    match r
    case Root => Pdpt(i)
    case Pdpt(i4) => Pd(i4, i)
    case Pd(i4, i3) => Pt(i4, i3, i)
  }

  predicate TableFrame(frame: int) { 0 < frame < TWO31 && frame % FRAME_SIZE == 0 }

  /** What an entry of a table with role `r` must be: a present one that is no page leads
      to the table whose role is its. */
  ghost predicate EntryOk(roles: Roles, r: Role, i: nat, entry: nat) {
    Present(entry) && !r.Pt? && !(r.Pd? && Large(entry)) ==>
      PageOf(entry) in roles && roles[PageOf(entry)] == Child(r, i)
  }

  ghost predicate WellFormed(m: Memory, roles: Roles) {
    && PML4 in roles && roles[PML4] == Root
    && (forall f :: f in roles ==> TableFrame(f))
    && (forall f, i :: f in roles && 0 <= i < 512 ==> EntryOk(roles, roles[f], i, Entry(m, f, i)))
  }

  /** Entry `i` of a table with role `r` is for the addresses of this branch. */
  predicate OnPath(r: Role, i: nat, va: nat) {
    match r
    case Root => i == Pml4Index(va)
    case Pdpt(i4) => i4 == Pml4Index(va) && i == PdptIndex(va)
    case Pd(i4, i3) => i4 == Pml4Index(va) && i3 == PdptIndex(va) && i == PdIndex(va)
    case Pt(i4, i3, i2) =>
      i4 == Pml4Index(va) && i3 == PdptIndex(va) && i2 == PdIndex(va) && i == PtIndex(va)
  }

  /** The walk of `va` reads entry `i` of the table in `f`. */
  predicate Meets(m: Memory, f: int, i: int, va: nat) {
    var e4 := Entry(m, PML4, Pml4Index(va));
    var e3 := Entry(m, PageOf(e4), PdptIndex(va));
    var e2 := Entry(m, PageOf(e3), PdIndex(va));
    || (f == PML4 && i == Pml4Index(va))
    || (Present(e4) && f == PageOf(e4) && i == PdptIndex(va))
    || (Present(e4) && Present(e3) && f == PageOf(e3) && i == PdIndex(va))
    || (Present(e4) && Present(e3) && Present(e2) && !Large(e2) && f == PageOf(e2) && i == PtIndex(va))
  }

  /** Distinct words of distinct frames have distinct addresses. */
  lemma FramesApart(f: int, o: int, g: int, p: int)
    requires f % FRAME_SIZE == 0 && g % FRAME_SIZE == 0
    requires 0 <= o < FRAME_SIZE && 0 <= p < FRAME_SIZE
    ensures f + o == g + p ==> f == g && o == p
  {
  }

  /** The walk of `va` only meets tables whose role is on the path of `va`. */
  lemma WalkRoles(m: Memory, roles: Roles, va: nat)
    requires WellFormed(m, roles)
    ensures var e4 := Entry(m, PML4, Pml4Index(va));
            EntryOk(roles, Root, Pml4Index(va), e4)
    ensures var e4 := Entry(m, PML4, Pml4Index(va));
            Present(e4) ==> EntryOk(roles, Pdpt(Pml4Index(va)), PdptIndex(va), Entry(m, PageOf(e4), PdptIndex(va)))
    ensures var e4 := Entry(m, PML4, Pml4Index(va));
            var e3 := Entry(m, PageOf(e4), PdptIndex(va));
            Present(e4) && Present(e3) ==>
              EntryOk(roles, Pd(Pml4Index(va), PdptIndex(va)), PdIndex(va), Entry(m, PageOf(e3), PdIndex(va)))
    ensures var e4 := Entry(m, PML4, Pml4Index(va));
            var e3 := Entry(m, PageOf(e4), PdptIndex(va));
            PdEntryAddress(m, va) == 0 <==> !(Present(e4) && Present(e3))
  {
    hide ReadEntry;
    hide ToInt32, Present, Large, Pml4Index, PdptIndex, PdIndex, PtIndex;
  }

  /** A store anywhere but on the walk of `va` does not change its translation. */
  lemma OffWalk(m: Memory, m': Memory, va: nat)
    requires forall f, i :: Meets(m, f, i, va) ==> Entry(m', f, i) == Entry(m, f, i)
    ensures Translate(m', va) == Translate(m, va)
    ensures PdEntryAddress(m', va) == PdEntryAddress(m, va)
    ensures PageTableOf(m', va) == PageTableOf(m, va)
    ensures SplitSafe(m', va) <==> SplitSafe(m, va)
  {
    hide ReadEntry;
    hide ToInt32, PageOf, LargeBaseOf, Present, Large, Pml4Index, PdptIndex, PdIndex, PtIndex;
    var e4 := Entry(m, PML4, Pml4Index(va));
    var e3 := Entry(m, PageOf(e4), PdptIndex(va));
    var e2 := Entry(m, PageOf(e3), PdIndex(va));
    assert Meets(m, PML4, Pml4Index(va), va);
    if Present(e4) {
      assert Meets(m, PageOf(e4), PdptIndex(va), va);
      if Present(e3) {
        assert Meets(m, PageOf(e3), PdIndex(va), va);
        if Present(e2) && !Large(e2) {
          assert Meets(m, PageOf(e2), PtIndex(va), va);
        }
      }
    }
  }

  /** A walk meets a table only at the level and index its role says. */
  lemma MeetsRole(m: Memory, roles: Roles, f: int, i: int, va: nat)
    requires WellFormed(m, roles) && Meets(m, f, i, va)
    ensures f in roles && 0 <= i < 512 && OnPath(roles[f], i, va)
    ensures var e4 := Entry(m, PML4, Pml4Index(va));
            var e3 := Entry(m, PageOf(e4), PdptIndex(va));
            var e2 := Entry(m, PageOf(e3), PdIndex(va));
            match roles[f]
            case Root => f == PML4
            case Pdpt(_) => Present(e4) && f == PageOf(e4)
            case Pd(_, _) => Present(e4) && Present(e3) && f == PageOf(e3)
            case Pt(_, _, _) => Present(e4) && Present(e3) && Present(e2) && !Large(e2) && f == PageOf(e2)
  {
    hide ReadEntry;
    hide ToInt32, PageOf, Present, Large, Pml4Index, PdptIndex, PdIndex, PtIndex;
    WalkRoles(m, roles, va);
  }

  // ---- edits of the tree -----------------------------------------------------

  /** `frame | PAGE_PRESENT | PAGE_RW` for a page-aligned frame below 2 GB. */
  function TableEntry(frame: int): int { frame + PAGE_PRESENT + PAGE_RW }

  lemma TableEntryBits(frame: int)
    requires 0 <= frame < TWO31 && frame % FRAME_SIZE == 0
    ensures 0 <= TableEntry(frame) < TWO32
    ensures Stored(TableEntry(frame)) == TableEntry(frame) && TableEntry(frame) % 0x1000 == 3
    ensures Present(TableEntry(frame)) && !Large(TableEntry(frame)) && PageOf(TableEntry(frame)) == frame
  {
    hide PageOf, Present, Stored;
    StoredIsExact(TableEntry(frame));
    PageOfSum(frame, PAGE_PRESENT + PAGE_RW);
  }

  lemma LargeOffset(va: nat)
    ensures va % 0x20_0000 == PtIndex(va) * 0x1000 + va % 0x1000
  {
  }

  /** Only entry `f, i` of the tables differs between the memories. */
  ghost predicate OnlyEntry(roles: Roles, m: Memory, m': Memory, f: int, i: nat) {
    forall g, j :: g in roles && 0 <= j < 512 && !(g == f && j == i) ==> Entry(m', g, j) == Entry(m, g, j)
  }

  lemma StoreOffWalk(m: Memory, m': Memory, roles: Roles, f: int, i: nat, va: nat)
    requires WellFormed(m, roles) && OnlyEntry(roles, m, m', f, i) && !Meets(m, f, i, va)
    ensures Translate(m', va) == Translate(m, va)
    ensures PdEntryAddress(m', va) == PdEntryAddress(m, va)
    ensures PageTableOf(m', va) == PageTableOf(m, va)
    ensures SplitSafe(m', va) <==> SplitSafe(m, va)
  {
    hide ReadEntry;
    hide ToInt32, PageOf, LargeBaseOf, Present, Large, Translate, PdEntryAddress, PageTableOf, SplitSafe;
    hide Pml4Index, PdptIndex, PdIndex, PtIndex;
    forall g, j | Meets(m, g, j, va) ensures Entry(m', g, j) == Entry(m, g, j) {
      MeetsRole(m, roles, g, j, va);
    }
    OffWalk(m, m', va);
  }

  /** Linking a fresh table whose own entries are in order keeps the tree in order. */
  lemma LinkKeepsTree(m: Memory, m': Memory, roles: Roles, f: int, i: nat, g: int)
    requires WellFormed(m, roles) && f in roles && !roles[f].Pt? && i < 512
    requires TableFrame(g) && g !in roles
    requires Entry(m', f, i) == TableEntry(g) && OnlyEntry(roles, m, m', f, i)
    requires forall j :: 0 <= j < 512 ==> !Present(Entry(m', g, j)) || roles[f].Pd?
    ensures WellFormed(m', roles[g := Child(roles[f], i)])
  {
    hide ToInt32, PageOf, Pml4Index, PdptIndex, PdIndex, PtIndex;
    TableEntryBits(g);
    var roles' := roles[g := Child(roles[f], i)];
    forall h, j | h in roles' && 0 <= j < 512 ensures EntryOk(roles', roles'[h], j, Entry(m', h, j)) {
      if h != g {
        assert EntryOk(roles, roles[h], j, Entry(m, h, j));
      }
    }
  }

  /** An address below the new, empty table was unmapped before and still is. */
  lemma EmptyTableTranslates(m: Memory, m': Memory, roles: Roles, f: int, i: nat, g: int, va: nat)
    requires WellFormed(m, roles) && f in roles && !roles[f].Pt? && i < 512
    requires TableFrame(g) && g !in roles
    requires !Present(Entry(m, f, i)) && Meets(m, f, i, va)
    requires Entry(m', f, i) == TableEntry(g) && OnlyEntry(roles, m, m', f, i)
    requires forall j :: 0 <= j < 512 ==> Entry(m', g, j) == 0
    ensures Translate(m, va) == 0 == Translate(m', va) && PageTableOf(m, va) == 0 && SplitSafe(m', va)
  {
    hide ReadEntry, Stored;
    hide ToInt32, PageOf, LargeBaseOf, Large, Pml4Index, PdptIndex, PdIndex, PtIndex;
    TableEntryBits(g);
    MeetsRole(m, roles, f, i, va);
    WalkRoles(m, roles, va);
    assert !Present(0);
    var e4 := Entry(m, PML4, Pml4Index(va));
    match roles[f]
    case Root =>
      assert Entry(m', g, PdptIndex(va)) == 0;
    case Pdpt(_) =>
      assert Entry(m', PML4, Pml4Index(va)) == e4;
      assert Entry(m', g, PdIndex(va)) == 0;
    case Pd(_, _) =>
      assert Entry(m', PML4, Pml4Index(va)) == e4;
      assert Entry(m', PageOf(e4), PdptIndex(va)) == Entry(m, PageOf(e4), PdptIndex(va));
      assert Entry(m', g, PtIndex(va)) == 0;
  }

  lemma LinkEmptyTable(m: Memory, m': Memory, roles: Roles, f: int, i: nat, g: int)
    requires WellFormed(m, roles) && f in roles && !roles[f].Pt? && i < 512
    requires !Present(Entry(m, f, i))
    requires TableFrame(g) && g !in roles
    requires Entry(m', f, i) == TableEntry(g) && OnlyEntry(roles, m, m', f, i)
    requires forall j :: 0 <= j < 512 ==> Entry(m', g, j) == 0
    ensures WellFormed(m', roles[g := Child(roles[f], i)])
    ensures SameTranslations(m, m') && TablesStay(m, m')
  {
    hide SplitSafe;
    hide ToInt32, PageOf, LargeBaseOf, Translate, Meets, EntryOk, Pml4Index, PdptIndex, PdIndex, PtIndex;
    LinkKeepsTree(m, m', roles, f, i, g);
    forall va: nat
      ensures Translate(m', va) == Translate(m, va)
      ensures PageTableOf(m, va) != 0 ==> PageTableOf(m', va) == PageTableOf(m, va)
      ensures SplitSafe(m, va) ==> SplitSafe(m', va)
    {
      if Meets(m, f, i, va) {
        EmptyTableTranslates(m, m', roles, f, i, g, va);
      } else {
        StoreOffWalk(m, m', roles, f, i, va);
      }
    }
  }

  lemma Int32Range(x: int)
    ensures -TWO31 <= ToInt32(x) < TWO31
    ensures 0 <= x < TWO31 ==> ToInt32(x) == x
  {
  }

  lemma PageMultiple(n: int)
    ensures 0x1000 * n % 0x1000 == 0
  {
  }

  lemma LargeBaseRange(x: int)
    ensures -TWO31 <= LargeBaseOf(x) && LargeBaseOf(x) + 0x20_0000 <= TWO31
    ensures LargeBaseOf(x) % 0x1000 == 0
    ensures LargeBaseOf(x) < 0 ==> LargeBaseOf(x) + 0x20_0000 <= 0
  {
    hide ToInt32;
    Int32Range(x);
    var k := ToInt32(x) / 0x20_0000;
    assert LargeBaseOf(x) == 0x20_0000 * k && -0x400 <= k < 0x400;
    PageMultiple(0x200 * k);
  }

  /** A negative number reads back as an entry that is not present. */
  lemma NegativeIsAbsent(v: int)
    requires -TWO31 <= v < 0
    ensures !Present(Stored(v))
  {
    assert v % TWO64 == v + TWO64;
    LargeIsEven(v + TWO64);
  }

  /** The 512 entries of the table `g` are made for the pages from `base` on. */
  ghost predicate MapsPages(m: Memory, g: int, base: int) {
    forall j :: 0 <= j < 512 ==> Entry(m, g, j) == Stored(TableEntry(base + j * 0x1000))
  }

  lemma PageEntry(e: nat, j: nat, entry: nat)
    requires j < 512 && entry == Stored(TableEntry(LargeBaseOf(e) + j * 0x1000))
    ensures Present(entry) <==> LargeBaseOf(e) >= 0
    ensures LargeBaseOf(e) >= 0 ==> PageOf(entry) == LargeBaseOf(e) + j * 0x1000
    ensures Present(entry) ==> entry % 0x1000 == 3
  {
    hide ToInt32, PageOf, LargeBaseOf, Present, Large, Stored;
    LargeBaseRange(e);
    var page := LargeBaseOf(e) + j * 0x1000;
    if LargeBaseOf(e) >= 0 {
      TableEntryBits(page);
    } else {
      NegativeIsAbsent(TableEntry(page));
    }
  }

  /** An address in the split 2 MB page keeps its translation if the page lies below
      2 GB and has none otherwise. */
  lemma SplitTranslates(m: Memory, m': Memory, roles: Roles, f: int, i: nat, g: int, va: nat)
    requires WellFormed(m, roles) && f in roles && roles[f].Pd? && i < 512
    requires TableFrame(g) && g !in roles
    requires Present(Entry(m, f, i)) && Large(Entry(m, f, i)) && Meets(m, f, i, va)
    requires Entry(m', f, i) == TableEntry(g) && OnlyEntry(roles, m, m', f, i)
    requires MapsPages(m', g, LargeBaseOf(Entry(m, f, i)))
    ensures PageTableOf(m, va) == 0 && PdEntryAddress(m, va) == f + 8 * i != 0 && SplitSafe(m', va)
    ensures Translate(m', va) == if LargeBaseOf(Entry(m, f, i)) >= 0 then Translate(m, va) else 0
    ensures LargeBaseOf(Entry(m, f, i)) < 0 ==> Translate(m, va) < 0
  {
    hide ToInt32, PageOf, LargeBaseOf, Large, Present, PdptIndex, PdIndex, Pml4Index, ReadEntry, Stored;
    TableEntryBits(g);
    MeetsRole(m, roles, f, i, va);
    WalkRoles(m, roles, va);
    LargeOffset(va);
    LargeBaseRange(Entry(m, f, i));
    PageEntry(Entry(m, f, i), PtIndex(va), Entry(m', g, PtIndex(va)));
  }

  /** Replacing a 2 MB entry by a table of its 512 pages means the same for every other
      address, and for the addresses of the page exactly when it lies below 2 GB. */
  lemma SplitMeans(m: Memory, m': Memory, roles: Roles, f: int, i: nat, g: int)
    requires WellFormed(m, roles) && f in roles && roles[f].Pd? && i < 512
    requires Present(Entry(m, f, i)) && Large(Entry(m, f, i))
    requires TableFrame(g) && g !in roles
    requires Entry(m', f, i) == TableEntry(g) && OnlyEntry(roles, m, m', f, i)
    requires MapsPages(m', g, LargeBaseOf(Entry(m, f, i)))
    ensures WellFormed(m', roles[g := Child(roles[f], i)]) && TablesStay(m, m')
    ensures forall v: nat :: Translate(m', v) ==
              if Meets(m, f, i, v) && LargeBaseOf(Entry(m, f, i)) < 0 then 0 else Translate(m, v)
  {
    hide ToInt32, PageOf, LargeBaseOf, Translate, Meets, EntryOk, Pml4Index, PdptIndex, PdIndex, PtIndex;
    hide Stored, ReadEntry, SplitSafe;
    LinkKeepsTree(m, m', roles, f, i, g);
    forall v: nat
      ensures Translate(m', v) ==
                if Meets(m, f, i, v) && LargeBaseOf(Entry(m, f, i)) < 0 then 0 else Translate(m, v)
      ensures PageTableOf(m, v) != 0 ==> PageTableOf(m', v) == PageTableOf(m, v)
      ensures SplitSafe(m, v) ==> SplitSafe(m', v)
    {
      if Meets(m, f, i, v) {
        SplitTranslates(m, m', roles, f, i, g, v);
      } else {
        StoreOffWalk(m, m', roles, f, i, v);
      }
    }
  }

  /** The split keeps the meaning of the tables exactly when the page lies below 2 GB. */
  lemma SplitKeepsMeaning(m: Memory, m': Memory, roles: Roles, f: int, i: nat, g: int, va: nat)
    requires WellFormed(m, roles) && f in roles && roles[f].Pd? && i < 512
    requires Present(Entry(m, f, i)) && Large(Entry(m, f, i)) && Meets(m, f, i, va)
    requires TableFrame(g) && g !in roles
    requires Entry(m', f, i) == TableEntry(g) && OnlyEntry(roles, m, m', f, i)
    requires MapsPages(m', g, LargeBaseOf(Entry(m, f, i)))
    ensures SameTranslations(m, m') <==> LargeBaseOf(Entry(m, f, i)) >= 0
  {
    hide ToInt32, PageOf, LargeBaseOf, Translate, Meets, Pml4Index, PdptIndex, PdIndex, PtIndex;
    hide Stored, ReadEntry;
    SplitMeans(m, m', roles, f, i, g);
    SplitTranslates(m, m', roles, f, i, g, va);
  }

  /** What a leaf entry says about an address of its page. */
  function LeafTranslation(entry: nat, va: nat): int {
    if Present(entry) then PageOf(entry) + va % 0x1000 else 0
  }

  /** The page table that the walk of `va` ends in. */
  ghost predicate IsPageTableOf(roles: Roles, pt: int, va: nat) {
    pt in roles && roles[pt] == Pt(Pml4Index(va), PdptIndex(va), PdIndex(va))
  }

  /** The page table of `va` is linked: its PD entry is a table entry for it. */
  ghost predicate Linked(m: Memory, roles: Roles, pt: int, va: nat) {
    IsPageTableOf(roles, pt, va) && pt != 0 && PageTableOf(m, va) == pt
  }

  /** A store to a leaf entry retranslates the addresses of its page and no others. */
  lemma LeafStore(m: Memory, m': Memory, roles: Roles, pt: int, va: nat, entry: nat)
    requires WellFormed(m, roles) && Linked(m, roles, pt, va)
    requires Entry(m', pt, PtIndex(va)) == entry && OnlyEntry(roles, m, m', pt, PtIndex(va))
    ensures WellFormed(m', roles) && Linked(m', roles, pt, va)
    ensures forall v: nat :: Translate(m', v) == if SamePage(va, v) then LeafTranslation(entry, v) else Translate(m, v)
    ensures TablesStay(m, m')
  {
    hide ToInt32, PageOf, LargeBaseOf, Large, Present, ReadEntry, Pml4Index, PdptIndex, PdIndex, PtIndex;
    forall h, j | h in roles && 0 <= j < 512 ensures EntryOk(roles, roles[h], j, Entry(m', h, j)) {
      assert EntryOk(roles, roles[h], j, Entry(m, h, j));
    }
    WalkRoles(m, roles, va);
    WalkRoles(m', roles, va);
    forall v: nat
      ensures Translate(m', v) == if SamePage(va, v) then LeafTranslation(entry, v) else Translate(m, v)
      ensures PageTableOf(m', v) == PageTableOf(m, v)
      ensures SplitSafe(m, v) ==> SplitSafe(m', v)
    {
      if SamePage(va, v) {
        WalkRoles(m', roles, v);
      } else {
        if Meets(m, pt, PtIndex(va), v) {
          MeetsRole(m, roles, pt, PtIndex(va), v);
        }
        StoreOffWalk(m, m', roles, pt, PtIndex(va), v);
      }
    }
  }

  /** `(pa & 0xFFFFF000) | flags`. */
  function LeafEntry(pa: nat, flags: nat): int
    requires flags < FRAME_SIZE
  {
    PageOf(pa) + flags
  }

  lemma PageOfSum(base: int, flags: nat)
    requires 0 <= base < TWO31 && base % 0x1000 == 0 && flags < FRAME_SIZE
    ensures PageOf(base + flags) == base
    ensures Present(base + flags) <==> flags % 2 == 1
    ensures (base + flags) % 0x1000 == flags
  {
    hide ToInt32;
    var k := base / 0x1000;
    assert base == 0x1000 * k && k < 0x8_0000;
    assert (base + flags) % 0x1000 == flags;
    Int32Range(base + flags);
  }

  lemma PageOfBounds(pa: nat)
    ensures -TWO31 <= PageOf(pa) < TWO31 && PageOf(pa) % 0x1000 == 0
    ensures PageOf(pa) < 0 ==> PageOf(pa) + 0x1000 <= 0
    ensures pa < TWO31 ==> PageOf(pa) == pa - pa % 0x1000
  {
    hide ToInt32;
    Int32Range(pa);
    var k := ToInt32(pa) / 0x1000;
    assert PageOf(pa) == 0x1000 * k && -0x8_0000 <= k < 0x8_0000;
    PageMultiple(k);
  }

  /** A stored leaf entry translates to the page of `pa` cut to 31 bits, if that is there. */
  lemma LeafEntryTranslates(pa: nat, flags: nat, va: nat)
    requires flags < FRAME_SIZE
    ensures LeafTranslation(Stored(LeafEntry(pa, flags)), va) ==
              if flags % 2 == PAGE_PRESENT && PageOf(pa) >= 0 then PageOf(pa) + va % 0x1000 else 0
    ensures pa < TWO31 ==> PageOf(pa) == pa - pa % 0x1000 >= 0
  {
    hide PageOf, Present, Stored;
    PageOfBounds(pa);
    if PageOf(pa) >= 0 {
      PageOfSum(PageOf(pa), flags);
      StoredIsExact(LeafEntry(pa, flags));
    } else {
      NegativeIsAbsent(LeafEntry(pa, flags));
    }
  }

  /** Below 2 GB the stored leaf has the address bits of `pa` and the flags. */
  lemma LeafEntryBits(pa: nat, flags: nat)
    requires flags < FRAME_SIZE && pa < TWO31
    ensures var entry := Stored(LeafEntry(pa, flags));
            entry % 0x1000 == flags && entry - entry % 0x1000 == pa - pa % 0x1000
  {
    hide PageOf, Present, Stored;
    PageOfBounds(pa);
    PageOfSum(PageOf(pa), flags);
    StoredIsExact(LeafEntry(pa, flags));
  }

  lemma StoredIsExact(v: nat)
    requires v < TWO32
    ensures Stored(v) == v
  {
    SmallIsExact(v);
  }

  /** The page of `va`, and no other, is translated to the page of `pa`, or to nothing
      when the flags lack PAGE_PRESENT. */
  ghost predicate Maps(m: Memory, m': Memory, va: nat, pa: nat, flags: nat) {
    && (forall v: nat :: !SamePage(va, v) ==> Translate(m', v) == Translate(m, v))
    && (forall v: nat :: SamePage(va, v) ==>
          Translate(m', v) == if flags % 2 == PAGE_PRESENT then pa - pa % 0x1000 + v % 0x1000 else 0)
  }

  /** The page of `va`, and no other, is translated to nothing. */
  ghost predicate Unmaps(m: Memory, m': Memory, va: nat) {
    forall v: nat :: Translate(m', v) == if SamePage(va, v) then 0 else Translate(m, v)
  }

  /** The large page of `va` was split and then the page of `va` given the leaf `entry`. */
  ghost predicate Retranslated(m: Memory, m': Memory, va: nat, entry: nat) {
    forall v: nat ::
      Translate(m', v) ==
        if SamePage(va, v) then LeafTranslation(entry, v)
        else if SameLargePage(va, v) && !SplitSafe(m, va) then 0
        else Translate(m, v)
  }

  /** Another page of the same large page. */
  lemma Neighbour(va: nat) returns (v: nat)
    ensures SameLargePage(va, v) && !SamePage(va, v)
  {
    var big := va / 0x20_0000;
    var q := va % 0x20_0000;
    v := 0x20_0000 * big + (if q < 0x1000 then 0x1000 else 0);
    LargeOffset(va);
    LargeOffset(v);
    DivideTwice(va, 0x20_0000);
    DivideTwice(v, 0x20_0000);
    DivideTwice(va, 0x4000_0000);
    DivideTwice(v, 0x4000_0000);
  }

  /** An address in a large page at or above 2 GB translates to a negative number. */
  lemma UnsafeTranslation(m: Memory, va: nat, v: nat)
    requires !SplitSafe(m, va) && SameLargePage(va, v)
    ensures Translate(m, v) < 0
  {
    hide ToInt32, LargeBaseOf, PageOf, Large, Present, Pml4Index, PdptIndex, PdIndex, PtIndex, ReadEntry;
    LargeBaseRange(ReadEntry(m, PdEntryAddress(m, va)));
  }

  /** Storing a leaf for `pa` maps the page of `va` exactly when the large page that was
      split, if any, and the page to be present lie below 2 GB. */
  lemma MapsIff(m: Memory, m': Memory, va: nat, pa: nat, flags: nat)
    requires flags < FRAME_SIZE && Retranslated(m, m', va, Stored(LeafEntry(pa, flags)))
    ensures Maps(m, m', va, pa, flags) <==> SplitSafe(m, va) && (flags % 2 == PAGE_PRESENT ==> pa < TWO31)
  {
    hide Translate, SplitSafe, PageOf, LeafTranslation, Stored, LeafEntry, Pml4Index, PdptIndex, PdIndex, PtIndex;
    forall v: nat
      ensures LeafTranslation(Stored(LeafEntry(pa, flags)), v) ==
                if flags % 2 == PAGE_PRESENT && PageOf(pa) >= 0 then PageOf(pa) + v % 0x1000 else 0
    {
      LeafEntryTranslates(pa, flags, v);
    }
    PageOfBounds(pa);
    if !SplitSafe(m, va) {
      var v := Neighbour(va);
      UnsafeTranslation(m, va, v);
      assert Translate(m', v) != Translate(m, v);
    }
    assert SamePage(va, va);
  }

  /** Storing 0 unmaps the page of `va` exactly when the large page that was split, if
      any, lies below 2 GB. */
  lemma UnmapsIff(m: Memory, m': Memory, va: nat)
    requires Retranslated(m, m', va, 0)
    ensures Unmaps(m, m', va) <==> SplitSafe(m, va)
  {
    hide Translate, SplitSafe, Pml4Index, PdptIndex, PdIndex, PtIndex;
    if !SplitSafe(m, va) {
      var v := Neighbour(va);
      UnsafeTranslation(m, va, v);
      assert Translate(m', v) != Translate(m, v);
    }
  }

  lemma DivideTwice(v: nat, unit: nat)
    requires unit in {0x1000, 0x20_0000, 0x4000_0000}
    ensures v / (unit * 512) == v / unit / 512
  {
    var q := v / unit;
    var p := q / 512;
    assert v == unit * q + v % unit && q == 512 * p + q % 512;
    assert v == unit * 512 * p + (unit * (q % 512) + v % unit);
  }

  /** The four indices and the offset make up the address. */
  lemma IndicesMakeAddress(v: nat)
    requires v < 0x1_0000_0000_0000
    ensures v == Pml4Index(v) * 0x80_0000_0000 + PdptIndex(v) * 0x4000_0000
                 + PdIndex(v) * 0x20_0000 + PtIndex(v) * 0x1000 + v % 0x1000
  {
    DivideTwice(v, 0x1000);
    DivideTwice(v, 0x20_0000);
    DivideTwice(v, 0x4000_0000);
    assert v / 0x80_0000_0000 < 512;
  }

  /** Page-aligned addresses of the 48-bit space are on the same page only if equal. */
  lemma PagesApart(v: nat, w: nat)
    requires v < 0x1_0000_0000_0000 && w < 0x1_0000_0000_0000
    requires v % FRAME_SIZE == 0 && w % FRAME_SIZE == 0
    ensures SamePage(v, w) <==> v == w
  {
    IndicesMakeAddress(v);
    IndicesMakeAddress(w);
    hide Pml4Index, PdptIndex, PdIndex, PtIndex;
  }

  // ---- stores ----------------------------------------------------------------

  lemma StoreEntry(m: Memory, f: int, i: nat, v: int, g: int, j: nat)
    requires f % FRAME_SIZE == 0 && g % FRAME_SIZE == 0 && i < 512 && j < 512
    ensures Entry(WriteEntry(m, f + 8 * i, v), g, j) == if g == f && j == i then Stored(v) else Entry(m, g, j)
  {
    hide DoubleOf;
    WriteRead64(m, f + 8 * i, v % TWO64);
    FramesApart(f, 8 * i, g, 8 * j);
    FramesApart(f, 8 * i, g, 8 * j + 4);
    FramesApart(f, 8 * i + 4, g, 8 * j);
    FramesApart(f, 8 * i + 4, g, 8 * j + 4);
  }

  lemma StoreOnlyEntry(m: Memory, roles: Roles, f: int, i: nat, v: int)
    requires TableFrame(f) && i < 512 && forall g :: g in roles ==> TableFrame(g)
    ensures Entry(WriteEntry(m, f + 8 * i, v), f, i) == Stored(v)
    ensures OnlyEntry(roles, m, WriteEntry(m, f + 8 * i, v), f, i)
  {
    hide Entry, WriteEntry, Stored;
    forall g, j | (g in roles || g == f) && 0 <= j < 512
      ensures Entry(WriteEntry(m, f + 8 * i, v), g, j) == if g == f && j == i then Stored(v) else Entry(m, g, j)
    {
      StoreEntry(m, f, i, v, g, j);
    }
  }

  /** Nothing outside the frame `g` changed, so no other table did. */
  ghost predicate OnlyFrame(m: Memory, m': Memory, g: int) {
    forall f, i :: f % FRAME_SIZE == 0 && f != g && 0 <= i < 512 ==> Entry(m', f, i) == Entry(m, f, i)
  }

  /** Fresh frames were taken for the new tables, and for nothing else. */
  ghost predicate Grew(roles: Roles, used: set<int>, roles': Roles, used': set<int>) {
    && (forall f :: f in roles ==> f in roles' && roles'[f] == roles[f])
    && used' == used + (roles'.Keys - roles.Keys)
    && (roles'.Keys - roles.Keys) !! used
  }

  /** What a change of the tables stored: every page table keeps its entries, and a
      present entry that is not an old one has the present and the write bit and no other
      below the address. */
  ghost predicate Edited(m: Memory, roles: Roles, m': Memory, roles': Roles) {
    && (forall f, j :: f in roles && roles[f].Pt? && 0 <= j < 512 ==> Entry(m', f, j) == Entry(m, f, j))
    && (forall f, j :: f in roles' && 0 <= j < 512 ==> OldOrWritable(m, roles, m', f, j))
  }

  predicate OldOrWritable(m: Memory, roles: Roles, m': Memory, f: int, j: int) {
    Present(Entry(m', f, j)) ==> (f in roles && Entry(m', f, j) == Entry(m, f, j)) || Entry(m', f, j) % 0x1000 == 3
  }

  lemma EditedNothing(m: Memory, roles: Roles)
    ensures Edited(m, roles, m, roles)
  {
  }

  lemma EditedTwice(m0: Memory, r0: Roles, m1: Memory, r1: Roles, m2: Memory, r2: Roles)
    requires Edited(m0, r0, m1, r1) && Edited(m1, r1, m2, r2)
    requires forall f :: f in r0 ==> f in r1 && r1[f] == r0[f]
    ensures Edited(m0, r0, m2, r2)
  {
    hide Entry, Present;
    forall f, j | f in r2 && 0 <= j < 512 ensures OldOrWritable(m0, r0, m2, f, j) {
      assert OldOrWritable(m1, r1, m2, f, j);
      if f in r1 {
        assert OldOrWritable(m0, r0, m1, f, j);
      }
    }
  }

  lemma ZerosAreAbsent(m: Memory, roles: Roles, m': Memory, g: int)
    requires forall j :: 0 <= j < 512 ==> Entry(m', g, j) == 0
    ensures forall j :: 0 <= j < 512 ==> OldOrWritable(m, roles, m', g, j)
  {
    hide Entry;
  }

  /** Linking a new table of such entries is such a change. */
  lemma LinkEdits(m: Memory, m': Memory, roles: Roles, f: int, i: nat, g: int, r: Role)
    requires f in roles && !roles[f].Pt? && i < 512 && TableFrame(g) && g !in roles
    requires Entry(m', f, i) == TableEntry(g) && OnlyEntry(roles, m, m', f, i)
    requires forall j :: 0 <= j < 512 ==> OldOrWritable(m, roles, m', g, j)
    ensures Edited(m, roles, m', roles[g := r])
  {
    hide Entry, Present;
    TableEntryBits(g);
  }

  /** The leaf entry of `va`, for which the page table is there. */
  function LeafOf(m: Memory, va: nat): nat { Entry(m, PageTableOf(m, va), PtIndex(va)) }

  /** The tables after the page table of `va` was made or split off and its leaf entry
      stored. */
  ghost predicate LeafEdited(m: Memory, roles: Roles, m': Memory, roles': Roles, va: nat) {
    && (forall f, j :: f in roles && roles[f].Pt? && 0 <= j < 512 && !(f == PageTableOf(m', va) && j == PtIndex(va)) ==>
          Entry(m', f, j) == Entry(m, f, j))
    && (forall f, j :: f in roles' && 0 <= j < 512 && !(f == PageTableOf(m', va) && j == PtIndex(va)) ==>
          OldOrWritable(m, roles, m', f, j))
  }

  lemma LeafStoreEdits(m0: Memory, r0: Roles, m: Memory, roles: Roles, m': Memory, va: nat)
    requires Edited(m0, r0, m, roles) && forall f :: f in r0 ==> f in roles && roles[f] == r0[f]
    requires OnlyEntry(roles, m, m', PageTableOf(m', va), PtIndex(va))
    ensures LeafEdited(m0, r0, m', roles, va)
  {
    hide Entry, Present, PageTableOf, PtIndex;
    forall f, j | f in roles && 0 <= j < 512 && !(f == PageTableOf(m', va) && j == PtIndex(va))
      ensures OldOrWritable(m0, r0, m', f, j)
    {
      assert OldOrWritable(m0, r0, m, f, j);
    }
  }

  /** The leaf entries of the other pages stay. */
  lemma OtherLeavesStay(m: Memory, roles: Roles, m': Memory, roles': Roles, va: nat, w: nat)
    requires WellFormed(m, roles) && LeafEdited(m, roles, m', roles', va) && TablesStay(m, m')
    requires forall f :: f in roles ==> f in roles' && roles'[f] == roles[f]
    requires Linked(m', roles', PageTableOf(m', va), va)
    requires PageTableOf(m, w) != 0 && !SamePage(va, w)
    ensures LeafOf(m', w) == LeafOf(m, w)
  {
    var pt := PageTableOf(m, w);
    TableIsLinked(m, roles, w);
    hide PageTableOf, Entry, WellFormed, Pml4Index, PdptIndex, PdIndex, PtIndex;
  }

  lemma LeafStays(m: Memory, roles: Roles, m': Memory, roles': Roles, w: nat)
    requires WellFormed(m, roles) && Edited(m, roles, m', roles') && TablesStay(m, m')
    requires PageTableOf(m, w) != 0
    ensures LeafOf(m', w) == LeafOf(m, w)
  {
    TableIsLinked(m, roles, w);
    hide PageTableOf, Entry, WellFormed, Pml4Index, PdptIndex, PdIndex, PtIndex;
  }

  lemma TableIsLinked(m: Memory, roles: Roles, w: nat)
    requires WellFormed(m, roles) && PageTableOf(m, w) != 0
    ensures Linked(m, roles, PageTableOf(m, w), w)
  {
    hide ToInt32, Large, Present, PageOf, Pml4Index, PdptIndex, PdIndex, PtIndex, ReadEntry;
    WalkRoles(m, roles, w);
  }

  /** Every present entry of a table has its write bit. */
  ghost predicate AllWritable(m: Memory, roles: Roles) {
    forall f, j :: f in roles && 0 <= j < 512 ==> WritableAt(m, f, j)
  }

  predicate WritableAt(m: Memory, f: int, j: int) { Present(Entry(m, f, j)) ==> Entry(m, f, j) / 2 % 2 == 1 }

  lemma StaysWritable(m: Memory, roles: Roles, m': Memory, roles': Roles, va: nat)
    requires AllWritable(m, roles) && LeafEdited(m, roles, m', roles', va)
    requires WritableAt(m', PageTableOf(m', va), PtIndex(va))
    ensures AllWritable(m', roles')
  {
    hide Entry, Present, PageTableOf, PtIndex;
    forall f, j | f in roles' && 0 <= j < 512 ensures WritableAt(m', f, j) {
      if !(f == PageTableOf(m', va) && j == PtIndex(va)) {
        assert OldOrWritable(m, roles, m', f, j);
        ThreeIsWritable(Entry(m', f, j));
        if f in roles {
          assert WritableAt(m, f, j);
        }
      }
    }
  }

  lemma EditsStayWritable(m: Memory, roles: Roles, m': Memory, roles': Roles)
    requires AllWritable(m, roles) && Edited(m, roles, m', roles')
    ensures AllWritable(m', roles')
  {
    hide Entry, Present;
    forall f, j | f in roles' && 0 <= j < 512 ensures WritableAt(m', f, j) {
      assert OldOrWritable(m, roles, m', f, j);
      ThreeIsWritable(Entry(m', f, j));
      if f in roles {
        assert WritableAt(m, f, j);
      }
    }
  }

  lemma ThreeIsWritable(e: nat)
    ensures e % 0x1000 == 3 ==> e / 2 % 2 == 1
  {
    if e % 0x1000 == 3 {
      var q := e / 0x1000;
      assert e == 2 * (0x800 * q + 1) + 1 && 0x800 * q + 1 == 2 * (0x400 * q) + 1;
    }
  }

  lemma GrewByNone(roles: Roles, used: set<int>)
    ensures Grew(roles, used, roles, used)
  {
    assert roles.Keys - roles.Keys == {};
  }

  lemma GrewByOne(roles: Roles, used: set<int>, g: int, r: Role)
    requires g !in roles && g !in used
    ensures Grew(roles, used, roles[g := r], used + {g})
  {
    assert roles[g := r].Keys - roles.Keys == {g};
  }

  lemma GrewTwice(r0: Roles, u0: set<int>, r1: Roles, u1: set<int>, r2: Roles, u2: set<int>)
    requires Grew(r0, u0, r1, u1) && Grew(r1, u1, r2, u2)
    ensures Grew(r0, u0, r2, u2)
    ensures forall f :: f in r0 ==> f in r1 && r1[f] == r0[f]
  {
    assert forall f :: f in r0 ==> f in r1 && r1[f] == r0[f];
    assert forall f :: f in r1 ==> f in r2 && r2[f] == r1[f];
    assert r2.Keys - r0.Keys == (r1.Keys - r0.Keys) + (r2.Keys - r1.Keys);
  }

  /** A present PD entry of `va` sits in a table with the PD role of `va`. */
  lemma PdFrame(m: Memory, roles: Roles, va: nat) returns (pd: int)
    requires WellFormed(m, roles) && PdEntryAddress(m, va) != 0
    ensures pd in roles && roles[pd] == Pd(Pml4Index(va), PdptIndex(va))
    ensures PdEntryAddress(m, va) == pd + 8 * PdIndex(va)
    ensures Meets(m, pd, PdIndex(va), va)
  {
    hide ToInt32, Pml4Index, PdptIndex, PdIndex, PtIndex;
    WalkRoles(m, roles, va);
    pd := PdEntryAddress(m, va) - 8 * PdIndex(va);
  }

  lemma AlreadyTable(m: Memory, roles: Roles, va: nat)
    requires WellFormed(m, roles) && PdEntryAddress(m, va) != 0
    requires var e := ReadEntry(m, PdEntryAddress(m, va)); Present(e) && !Large(e)
    ensures PageTableOf(m, va) == PageOf(ReadEntry(m, PdEntryAddress(m, va))) != 0
    ensures Linked(m, roles, PageTableOf(m, va), va)
  {
    hide ToInt32, Large, Pml4Index, PdptIndex, PdIndex, PtIndex;
    WalkRoles(m, roles, va);
  }

  /** Storing a table entry in the PD entry of `va` keeps the levels above. */
  lemma PdEntryStored(m: Memory, m': Memory, roles: Roles, pd: int, g: int, va: nat)
    requires WellFormed(m, roles) && PdEntryAddress(m, va) == pd + 8 * PdIndex(va) != 0
    requires pd in roles && roles[pd] == Pd(Pml4Index(va), PdptIndex(va))
    requires TableFrame(g) && OnlyEntry(roles, m, m', pd, PdIndex(va))
    requires Entry(m', pd, PdIndex(va)) == TableEntry(g)
    ensures PdEntryAddress(m', va) == PdEntryAddress(m, va)
    ensures PageTableOf(m', va) == g
  {
    hide ToInt32, PageOf, LargeBaseOf, Large, Present, Translate, Pml4Index, PdptIndex, PdIndex, PtIndex;
    WalkRoles(m, roles, va);
    var e4 := Entry(m, PML4, Pml4Index(va));
    assert Entry(m', PML4, Pml4Index(va)) == e4;
    assert Entry(m', PageOf(e4), PdptIndex(va)) == Entry(m, PageOf(e4), PdptIndex(va));
    TableEntryBits(g);
  }

  /** The memory after the two stages of a change: frame `g` written, then entry `f, i`. */
  lemma FrameThenEntry(m: Memory, m1: Memory, roles: Roles, g: int, f: int, i: nat, v: int)
    requires forall h :: h in roles ==> TableFrame(h)
    requires TableFrame(g) && g !in roles && f in roles && i < 512 && OnlyFrame(m, m1, g)
    ensures var m2 := WriteEntry(m1, f + 8 * i, v);
            && OnlyEntry(roles, m, m2, f, i) && Entry(m2, f, i) == Stored(v)
            && forall j :: 0 <= j < 512 ==> Entry(m2, g, j) == Entry(m1, g, j)
  {
    hide Entry, WriteEntry, Stored;
    StoreOnlyEntry(m1, roles[g := Root], f, i, v);
    var m2 := WriteEntry(m1, f + 8 * i, v);
    forall j | 0 <= j < 512 ensures Entry(m2, g, j) == Entry(m1, g, j) {
      assert g in roles[g := Root];
    }
  }

  /** The walks through the PD entry of `va` are those of its large page. */
  lemma MeetsSameLarge(m: Memory, roles: Roles, pd: int, va: nat, v: nat)
    requires WellFormed(m, roles) && PdEntryAddress(m, va) != 0
    requires pd in roles && roles[pd] == Pd(Pml4Index(va), PdptIndex(va)) && Meets(m, pd, PdIndex(va), va)
    ensures Meets(m, pd, PdIndex(va), v) <==> SameLargePage(va, v)
  {
    hide ToInt32, PageOf, Large, Present, ReadEntry, Pml4Index, PdptIndex, PdIndex, PtIndex;
    WalkRoles(m, roles, va);
    MeetsRole(m, roles, pd, PdIndex(va), va);
    if Meets(m, pd, PdIndex(va), v) {
      MeetsRole(m, roles, pd, PdIndex(va), v);
    }
  }

  /** Filling the free frame `g` with the 512 pages and then storing it in the PD entry
      splits the large page of `va`. */
  lemma SplitStores(m: Memory, m1: Memory, roles: Roles, va: nat, pd: int, g: int)
    requires WellFormed(m, roles) && PdEntryAddress(m, va) == pd + 8 * PdIndex(va) != 0
    requires pd in roles && roles[pd] == Pd(Pml4Index(va), PdptIndex(va)) && Meets(m, pd, PdIndex(va), va)
    requires var e := Entry(m, pd, PdIndex(va)); Present(e) && Large(e)
    requires TableFrame(g) && g !in roles && OnlyFrame(m, m1, g)
    requires MapsPages(m1, g, LargeBaseOf(Entry(m, pd, PdIndex(va))))
    ensures var m2 := WriteEntry(m1, pd + 8 * PdIndex(va), TableEntry(g));
            var roles2 := roles[g := Pt(Pml4Index(va), PdptIndex(va), PdIndex(va))];
            && WellFormed(m2, roles2) && TablesStay(m, m2) && AfterSplit(m, m2, va)
            && (SameTranslations(m, m2) <==> SplitSafe(m, va))
            && PdEntryAddress(m2, va) == PdEntryAddress(m, va)
            && PageTableOf(m2, va) == g && Linked(m2, roles2, g, va)
            && MapsPages(m2, g, LargeBaseOf(Entry(m, pd, PdIndex(va)))) && Edited(m, roles, m2, roles2)
  {
    hide ToInt32, PageOf, LargeBaseOf, Translate, Meets, EntryOk, OnlyEntry, Pml4Index, PdptIndex, PdIndex, PtIndex;
    hide ReadEntry, WriteEntry, Stored, WellFormed, PdEntryAddress, SameLargePage;
    var m2 := WriteEntry(m1, pd + 8 * PdIndex(va), TableEntry(g));
    assert forall h :: h in roles ==> TableFrame(h) by { TreeFrames(m, roles); }
    TableEntryBits(g);
    FrameThenEntry(m, m1, roles, g, pd, PdIndex(va), TableEntry(g));
    SplitMeans(m, m2, roles, pd, PdIndex(va), g);
    SplitKeepsMeaning(m, m2, roles, pd, PdIndex(va), g, va);
    PdEntryStored(m, m2, roles, pd, g, va);
    forall j | 0 <= j < 512 ensures OldOrWritable(m, roles, m2, g, j) {
      PageEntry(Entry(m, pd, PdIndex(va)), j, Entry(m2, g, j));
    }
    LinkEdits(m, m2, roles, pd, PdIndex(va), g, Pt(Pml4Index(va), PdptIndex(va), PdIndex(va)));
    forall v: nat ensures Meets(m, pd, PdIndex(va), v) <==> SameLargePage(va, v) {
      MeetsSameLarge(m, roles, pd, va, v);
    }
  }

  lemma TreeFrames(m: Memory, roles: Roles)
    requires WellFormed(m, roles)
    ensures forall h :: h in roles ==> TableFrame(h)
  {
  }

  /** Storing a leaf after the large page of `va` was split. */
  lemma LeafStores(m0: Memory, r0: Roles, m: Memory, roles: Roles, pt: int, va: nat, v: int)
    requires AfterSplit(m0, m, va) && TablesStay(m0, m) && Edited(m0, r0, m, roles)
    requires forall f :: f in r0 ==> f in roles && roles[f] == r0[f]
    requires WellFormed(m, roles) && Linked(m, roles, pt, va)
    ensures var m' := WriteEntry(m, pt + PtIndex(va) * 8, v);
            && WellFormed(m', roles) && Linked(m', roles, pt, va) && TablesStay(m0, m')
            && Retranslated(m0, m', va, Stored(v))
            && LeafEdited(m0, r0, m', roles, va) && LeafOf(m', va) == Stored(v)
  {
    hide ToInt32, Translate, PageOf, Large, LargeBaseOf, Entry, Pml4Index, PdptIndex, PdIndex, PtIndex;
    hide WriteEntry, Stored, EntryOk, PageTableOf, LeafTranslation, SplitSafe, Edited, LeafEdited, OnlyEntry;
    var m' := WriteEntry(m, pt + PtIndex(va) * 8, v);
    StoreOnlyEntry(m, roles, pt, PtIndex(va), v);
    LeafStore(m, m', roles, pt, va, Stored(v));
    LeafStoreEdits(m0, r0, m, roles, m', va);
  }

  class PageTables {
    const pfn: FrameBitmap
    var mem: Memory
    ghost var roles: Roles

    ghost predicate Valid()
      reads this, pfn, pfn.bitmap
    {
      && pfn.Valid()
      && WellFormed(mem, roles)
      && (forall f :: f in roles && InArena(f) ==> f in pfn.Used())
    }

    /** Takes over the tables that are in memory. */
    constructor (pfn: FrameBitmap, mem: Memory, ghost roles: Roles)
      requires pfn.Valid() && WellFormed(mem, roles)
      requires forall f :: f in roles && InArena(f) ==> f in pfn.Used()
      ensures Valid() && this.pfn == pfn && this.mem == mem && this.roles == roles
    {
      this.pfn, this.mem, this.roles := pfn, mem, roles;
    }

    method ZeroFrame(frame: int)
      requires TableFrame(frame)
      modifies `mem
      ensures forall j :: 0 <= j < 512 ==> Entry(mem, frame, j) == 0
      ensures OnlyFrame(old(mem), mem, frame)
    {
      for i := 0 to 512
        invariant forall j :: 0 <= j < i ==> Entry(mem, frame, j) == 0
        invariant OnlyFrame(old(mem), mem, frame)
      {
        StoreInFrame(old(mem), mem, frame, i, 0);
        mem := WriteEntry(mem, frame + 8 * i, 0);
      }
    }

    method FillWithPages(frame: int, base: int)
      requires TableFrame(frame)
      modifies `mem
      ensures MapsPages(mem, frame, base)
      ensures OnlyFrame(old(mem), mem, frame)
    {
      for i := 0 to 512
        invariant forall j :: 0 <= j < i ==> Entry(mem, frame, j) == Stored(TableEntry(base + j * 0x1000))
        invariant OnlyFrame(old(mem), mem, frame)
      {
        StoreInFrame(old(mem), mem, frame, i, TableEntry(base + i * 0x1000));
        mem := WriteEntry(mem, frame + 8 * i, TableEntry(base + i * 0x1000));
      }
    }

    /** A missing level: a fresh zeroed frame below entry `i` of the table `f`. */
    method AddTable(f: int, i: nat) returns (frame: int)
      requires Valid() && f in roles && !roles[f].Pt? && i < 512 && !Present(Entry(mem, f, i))
      modifies `mem, `roles, pfn.bitmap
      ensures Valid() && SameTables(old(mem), mem)
      ensures frame == 0 <==> old(pfn.FreeFrames()) == 0
      ensures frame == 0 ==> roles == old(roles) && mem == old(mem)
      ensures pfn.FreeFrames() == old(pfn.FreeFrames()) - (if frame == 0 then 0 else 1)
      ensures frame != 0 ==> frame !in old(pfn.Used()) && TableFrame(frame)
      ensures frame != 0 ==> roles == old(roles)[frame := Child(old(roles)[f], i)]
      ensures frame != 0 ==> Entry(mem, f, i) == TableEntry(frame) && OnlyEntry(old(roles), old(mem), mem, f, i)
      ensures frame != 0 ==> forall j :: 0 <= j < 512 ==> Entry(mem, frame, j) == 0
      ensures Grew(old(roles), old(pfn.Used()), roles, pfn.Used())
      ensures Edited(old(mem), old(roles), mem, roles)
    {
      hide ToInt32, PageOf, ReadEntry, WriteEntry, Translate, PageTableOf, EntryOk, TableEntry, Grew, Edited;
      hide OldOrWritable;
      frame := pfn.AllocPage();
      if frame == 0 {
        assert pfn.Used() == old(pfn.Used());
        GrewByNone(roles, pfn.Used());
        EditedNothing(mem, roles);
        return;
      }
      ZeroFrame(frame);
      TableEntryBits(frame);
      StoreOnlyEntry(mem, roles[frame := Root], f, i, TableEntry(frame));
      mem := WriteEntry(mem, f + 8 * i, TableEntry(frame));
      LinkEmptyTable(old(mem), mem, roles, f, i, frame);
      ZerosAreAbsent(old(mem), roles, mem, frame);
      LinkEdits(old(mem), mem, roles, f, i, frame, Child(roles[f], i));
      GrewByOne(roles, old(pfn.Used()), frame, Child(roles[f], i));
      roles := roles[frame := Child(roles[f], i)];
    }

    /** The table below entry `i` of the table `f`, with `create` made if it is missing;
        0 without one. */
    method Descend(f: int, i: nat, create: bool) returns (table: int)
      requires Valid() && f in roles && (roles[f].Root? || roles[f].Pdpt?) && i < 512
      modifies `mem, `roles, pfn.bitmap
      ensures Valid() && SameTables(old(mem), mem)
      ensures Grew(old(roles), old(pfn.Used()), roles, pfn.Used())
      ensures Edited(old(mem), old(roles), mem, roles)
      ensures table == 0 <==> !Present(Entry(old(mem), f, i)) && (!create || old(pfn.FreeFrames()) == 0)
      ensures table == 0 || Present(Entry(old(mem), f, i)) ==> mem == old(mem) && roles == old(roles)
      ensures pfn.FreeFrames() == old(pfn.FreeFrames()) - (if mem == old(mem) then 0 else 1)
      ensures table != 0 ==> table in roles && roles[table] == Child(old(roles)[f], i)
      ensures table != 0 ==> Present(Entry(mem, f, i)) && PageOf(Entry(mem, f, i)) == table
      ensures table != 0 && !Present(Entry(old(mem), f, i)) ==> forall j :: 0 <= j < 512 ==> Entry(mem, table, j) == 0
      ensures OnlyEntry(old(roles), old(mem), mem, f, i)
    {
      hide ToInt32, PageOf, Entry, Translate, PageTableOf, OnlyFrame, Edited;
      EditedNothing(mem, roles);
      assert EntryOk(roles, roles[f], i, Entry(mem, f, i));
      if !Present(Entry(mem, f, i)) {
        if !create {
          return 0;
        }
        table := AddTable(f, i);
        if table != 0 {
          TableEntryBits(table);
        }
        return;
      }
      table := PageOf(Entry(mem, f, i));
    }

    /** The address of the PD entry of `va`; with `create` the missing levels above it
        are made, and 0 then means that the arena ran out. */
    method FindPdEntry(va: nat, create: bool) returns (ea: int)
      requires Valid()
      modifies `mem, `roles, pfn.bitmap
      ensures Valid() && SameTables(old(mem), mem)
      ensures Grew(old(roles), old(pfn.Used()), roles, pfn.Used())
      ensures Edited(old(mem), old(roles), mem, roles)
      ensures ea == PdEntryAddress(mem, va)
      ensures !create ==> mem == old(mem) && roles == old(roles)
      ensures ea == 0 && create ==> old(pfn.FreeFrames()) <= 1
      ensures pfn.FreeFrames() >= old(pfn.FreeFrames()) - 2
      ensures PdEntryAddress(old(mem), va) != 0 ==> mem == old(mem) && roles == old(roles)
      ensures PdEntryAddress(old(mem), va) == 0 && ea != 0 ==> !Present(ReadEntry(mem, ea))
    {
      hide ToInt32, ReadEntry, PageOf, Pml4Index, PdptIndex, PdIndex, PtIndex, Translate, PageTableOf, EntryOk, Edited;
      var pdpt := Descend(PML4, Pml4Index(va), create);
      if pdpt == 0 {
        return 0;
      }
      ghost var made, rolesMade := mem, roles;
      var pd := Descend(pdpt, PdptIndex(va), create);
      EditedTwice(old(mem), old(roles), made, rolesMade, mem, roles);
      if pd == 0 {
        return 0;
      }
      ea := pd + PdIndex(va) * 8;
      assert ReadEntry(mem, ea) == Entry(mem, pd, PdIndex(va));
    }

    /** Turns the 2 MB page of `va` into a table of 4 KB pages; true when there is a
        table in the end. No address changes its translation, unless the page lies at
        or above 2 GB: then its addresses lose theirs. */
    method SplitLargePage(va: nat) returns (ok: bool)
      requires Valid()
      modifies `mem, `roles, pfn.bitmap
      ensures Valid() && TablesStay(old(mem), mem)
      ensures Grew(old(roles), old(pfn.Used()), roles, pfn.Used())
      ensures Edited(old(mem), old(roles), mem, roles)
      ensures PdEntryAddress(mem, va) == PdEntryAddress(old(mem), va)
      ensures ok ==> AfterSplit(old(mem), mem, va) && (SameTranslations(old(mem), mem) <==> SplitSafe(old(mem), va))
      ensures ok ==> PageTableOf(mem, va) != 0 && Linked(mem, roles, PageTableOf(mem, va), va)
      ensures ok && mem != old(mem) ==>
                PageTableOf(mem, va) !in old(pfn.Used()) &&
                MapsPages(mem, PageTableOf(mem, va), LargeBaseOf(ReadEntry(old(mem), PdEntryAddress(old(mem), va))))
      ensures !ok ==> mem == old(mem) && roles == old(roles)
      ensures pfn.FreeFrames() >= old(pfn.FreeFrames()) - 1
      ensures !ok ==> old(pfn.FreeFrames()) == 0 || PdEntryAddress(mem, va) == 0 ||
                      !Present(ReadEntry(mem, PdEntryAddress(mem, va)))
    {
      hide ToInt32, Pml4Index, PdptIndex, PdIndex, PtIndex, Translate, PageOf, LargeBaseOf, EntryOk, MapsPages;
      hide OnlyFrame, Large, WellFormed, Linked, PdEntryAddress, PageTableOf, Meets;
      hide Edited;
      EditedNothing(mem, roles);
      var pdEa := PdEntryAddress(mem, va);
      if pdEa == 0 {
        return false;
      }
      ghost var pd := PdFrame(mem, roles, va);
      var pdEntry := ReadEntry(mem, pdEa);
      if !Present(pdEntry) {
        return false;
      }
      if !Large(pdEntry) {
        AlreadyTable(mem, roles, va);
        return true;
      }
      var ptFrame := pfn.AllocPage();
      if ptFrame == 0 {
        return false;
      }
      FillWithPages(ptFrame, LargeBaseOf(pdEntry));
      SplitStores(old(mem), mem, roles, va, pd, ptFrame);
      mem := WriteEntry(mem, pdEa, TableEntry(ptFrame));
      roles := roles[ptFrame := Pt(Pml4Index(va), PdptIndex(va), PdIndex(va))];
      ok := true;
    }

    /** The frame of the page table of `va`, made or split off if need be; 0 when the
        arena ran out. */
    method EnsurePageTable(va: nat) returns (pt: int)
      requires Valid()
      modifies `mem, `roles, pfn.bitmap
      ensures Valid() && TablesStay(old(mem), mem)
      ensures if pt == 0 then SameTranslations(old(mem), mem) else AfterSplit(old(mem), mem, va)
      ensures Grew(old(roles), old(pfn.Used()), roles, pfn.Used())
      ensures Edited(old(mem), old(roles), mem, roles)
      ensures pt != 0 ==> Linked(mem, roles, pt, va)
      ensures pt == 0 ==> old(pfn.FreeFrames()) <= 2
      ensures pfn.FreeFrames() >= old(pfn.FreeFrames()) - 3
      ensures PageTableOf(old(mem), va) != 0 ==> pt != 0 && mem == old(mem) && roles == old(roles)
    {
      hide ToInt32, Pml4Index, PdptIndex, PdIndex, PtIndex, Translate, PageOf, LargeBaseOf, EntryOk, MapsPages;
      hide OnlyFrame, Large, WellFormed, PdEntryAddress, Meets, ReadEntry, SameLargePage, TableFrame, Grew, Edited;
      ghost var used := pfn.Used();
      var made := FindPdEntry(va, true);
      if made == 0 {
        return 0;
      }
      var pdEa := PdEntryAddress(mem, va);
      ghost var pd := PdFrame(mem, roles, va);
      ghost var before, rolesMade, usedMade := mem, roles, pfn.Used();
      var pdEntry := ReadEntry(mem, pdEa);
      if !Present(pdEntry) {
        pt := AddTable(pdEa - 8 * PdIndex(va), PdIndex(va));
        if pt != 0 {
          PdEntryStored(before, mem, rolesMade, pd, pt, va);
        }
        GrewTwice(old(roles), used, rolesMade, usedMade, roles, pfn.Used());
        EditedTwice(old(mem), old(roles), before, rolesMade, mem, roles);
        return;
      }
      if Large(pdEntry) {
        var ok := SplitLargePage(va);
        GrewTwice(old(roles), used, rolesMade, usedMade, roles, pfn.Used());
        EditedTwice(old(mem), old(roles), before, rolesMade, mem, roles);
        if !ok {
          return 0;
        }
        return PageOf(ReadEntry(mem, pdEa));
      }
      pt := PageOf(pdEntry);
      AlreadyTable(mem, roles, va);
    }

    /** Afterwards `va` and the other addresses of its page translate to the page of
        `pa`, and every other address as before, exactly when no page at or above 2 GB
        is concerned; on failure nothing is retranslated. */
    method MapPage(va: nat, pa: nat, flags: nat) returns (ok: bool)
      requires Valid() && flags < FRAME_SIZE
      modifies `mem, `roles, pfn.bitmap
      ensures Valid()
      ensures Grew(old(roles), old(pfn.Used()), roles, pfn.Used())
      ensures ok ==> LeafEdited(old(mem), old(roles), mem, roles, va)
      ensures ok && pa < TWO31 ==>
                var entry := LeafOf(mem, va);
                entry % 0x1000 == flags && entry - entry % 0x1000 == pa - pa % 0x1000
      ensures ok ==> Retranslated(old(mem), mem, va, Stored(LeafEntry(pa, flags)))
      ensures ok ==> (Maps(old(mem), mem, va, pa, flags) <==>
                      SplitSafe(old(mem), va) && (flags % 2 == PAGE_PRESENT ==> pa < TWO31))
      ensures TablesStay(old(mem), mem)
      ensures ok ==> Linked(mem, roles, PageTableOf(mem, va), va)
      ensures !ok ==> SameTables(old(mem), mem) && old(pfn.FreeFrames()) <= 2
      ensures !ok ==> Edited(old(mem), old(roles), mem, roles)
      ensures pfn.FreeFrames() >= old(pfn.FreeFrames()) - 3
      ensures PageTableOf(old(mem), va) != 0 ==> ok
    {
      hide ToInt32, Translate, PageOf, Present, Large, LargeBaseOf, Entry, Pml4Index, PdptIndex, PdIndex, PtIndex;
      hide AfterSplit, Maps, Retranslated, SplitSafe, WellFormed, WriteEntry, Stored, LeafEntry;
      var pt := EnsurePageTable(va);
      if pt == 0 {
        return false;
      }
      LeafStores(old(mem), old(roles), mem, roles, pt, va, LeafEntry(pa, flags));
      if pa < TWO31 {
        LeafEntryBits(pa, flags);
      }
      mem := WriteEntry(mem, pt + PtIndex(va) * 8, LeafEntry(pa, flags));
      MapsIff(old(mem), mem, va, pa, flags);
      ok := true;
    }

    method UnmapPage(va: nat) returns (ok: bool)
      requires Valid()
      modifies `mem, `roles, pfn.bitmap
      ensures Valid()
      ensures Grew(old(roles), old(pfn.Used()), roles, pfn.Used())
      ensures ok ==> LeafEdited(old(mem), old(roles), mem, roles, va) && LeafOf(mem, va) == 0
      ensures ok ==> Retranslated(old(mem), mem, va, 0)
      ensures ok ==> (Unmaps(old(mem), mem, va) <==> SplitSafe(old(mem), va))
      ensures TablesStay(old(mem), mem)
      ensures ok ==> Linked(mem, roles, PageTableOf(mem, va), va)
      ensures !ok ==> SameTables(old(mem), mem) && old(pfn.FreeFrames()) <= 2
      ensures !ok ==> Edited(old(mem), old(roles), mem, roles)
      ensures pfn.FreeFrames() >= old(pfn.FreeFrames()) - 3
      ensures PageTableOf(old(mem), va) != 0 ==> ok
      ensures PageTableOf(old(mem), va) != 0 ==> roles == old(roles)
    {
      hide ToInt32, Translate, PageOf, Large, LargeBaseOf, Entry, Pml4Index, PdptIndex, PdIndex, PtIndex;
      hide AfterSplit, Unmaps, Retranslated, SplitSafe, WellFormed, WriteEntry, Stored;
      var pt := EnsurePageTable(va);
      if pt == 0 {
        return false;
      }
      StoredIsExact(0);
      LeafStores(old(mem), old(roles), mem, roles, pt, va, 0);
      mem := WriteEntry(mem, pt + PtIndex(va) * 8, 0);
      UnmapsIff(old(mem), mem, va);
      ok := true;
    }
  }

  lemma StoreInFrame(m0: Memory, m: Memory, g: int, i: nat, v: int)
    requires TableFrame(g) && i < 512 && OnlyFrame(m0, m, g)
    ensures var m' := WriteEntry(m, g + 8 * i, v);
            OnlyFrame(m0, m', g)
            && forall j :: 0 <= j < 512 ==> Entry(m', g, j) == if j == i then Stored(v) else Entry(m, g, j)
  {
    hide Entry, WriteEntry, Stored;
    forall f, j | f % FRAME_SIZE == 0 && 0 <= j < 512
      ensures Entry(WriteEntry(m, g + 8 * i, v), f, j) == if f == g && j == i then Stored(v) else Entry(m, f, j)
    {
      StoreEntry(m, g, i, v, f, j);
    }
  }

  // ---- the tables the boot loader leaves ---------------------------------------

  const PDPT := 0x7_1000
  const PD0 := 0x7_2000

  function BootPd(t: nat): int { PD0 + t * 0x1000 }

  /** One PML4 entry, four PDPT entries and 2048 large pages: 4 GB mapped to itself. */
  ghost predicate BootTables(m: Memory) {
    && (forall i :: 0 <= i < 512 ==> Entry(m, PML4, i) == if i == 0 then PDPT + 3 else 0)
    && (forall i :: 0 <= i < 512 ==> Entry(m, PDPT, i) == if i < 4 then PD0 + i * 0x1000 + 3 else 0)
    && (forall t, i :: 0 <= t < 4 && 0 <= i < 512 ==>
          Entry(m, BootPd(t), i) == (t * 512 + i) * 0x20_0000 + 0x83)
  }

  const BOOT_ROLES: Roles := map[
    PML4 := Root, PDPT := Pdpt(0),
    PD0 := Pd(0, 0), PD0 + 0x1000 := Pd(0, 1), PD0 + 0x2000 := Pd(0, 2), PD0 + 0x3000 := Pd(0, 3)]

  lemma FlagBits(q: nat, r: nat)
    requires r < 0x80
    ensures (0x80 * q + r) / 0x80 == q && (2 * q + 1) % 2 == 1
  {
  }

  lemma LargeEntryFlags(n: nat)
    ensures Present(n * 0x20_0000 + 0x83) && Large(n * 0x20_0000 + 0x83)
  {
    var half := n * 0x2000;
    FlagBits(2 * half + 1, 3);
    FlagBits(half, 0);
    FlagBits(n * 0x10_0000 + 0x41, 0);
    assert n * 0x20_0000 + 0x83 == 0x80 * (2 * half + 1) + 3 == 2 * (n * 0x10_0000 + 0x41) + 1;
  }

  lemma LargeEntryBase(n: nat)
    requires n < 1024
    ensures LargeBaseOf(n * 0x20_0000 + 0x83) == n * 0x20_0000
  {
    var e := n * 0x20_0000 + 0x83;
    Int32Range(e);
    hide ToInt32;
    assert e - 0x83 == 0x20_0000 * n;
  }

  lemma BootEntryBits(n: nat)
    requires n < 2048
    ensures Present(n * 0x20_0000 + 0x83) && Large(n * 0x20_0000 + 0x83)
    ensures n < 1024 ==> LargeBaseOf(n * 0x20_0000 + 0x83) == n * 0x20_0000
  {
    hide LargeBaseOf, Large;
    LargeEntryFlags(n);
    if n < 1024 {
      LargeEntryBase(n);
    }
  }

  lemma BootEntryOk(m: Memory, f: int, i: nat)
    requires BootTables(m) && f in BOOT_ROLES && i < 512
    ensures EntryOk(BOOT_ROLES, BOOT_ROLES[f], i, Entry(m, f, i))
  {
    hide ReadEntry, PageOf, LargeBaseOf, Large, Present;
    AbsentIsZero();
    if f >= PD0 {
      var t := (f - PD0) / 0x1000;
      assert f == BootPd(t);
      BootEntryBits(t * 512 + i);
    } else if f == PDPT {
      if i < 4 {
        TableEntryBits(BootPd(i));
      }
    } else {
      TableEntryBits(PDPT);
    }
  }

  lemma BootWritable(m: Memory, f: int, i: nat)
    requires BootTables(m) && f in BOOT_ROLES && i < 512
    ensures WritableAt(m, f, i)
  {
    hide ReadEntry, Present;
    AbsentIsZero();
    if f >= PD0 {
      var t := (f - PD0) / 0x1000;
      assert f == BootPd(t);
      LargeIsWritable(t * 512 + i);
    } else if f == PDPT && i < 4 {
      ThreeIsWritable(PD0 + i * 0x1000 + 3);
    } else {
      ThreeIsWritable(PDPT + 3);
    }
  }

  lemma AbsentIsZero()
    ensures !Present(0)
  {
  }

  lemma LargeIsWritable(n: nat)
    ensures (n * 0x20_0000 + 0x83) / 2 % 2 == 1
  {
    assert n * 0x20_0000 + 0x83 == 2 * (n * 0x10_0000 + 0x41) + 1;
    assert n * 0x10_0000 + 0x41 == 2 * (n * 0x8_0000 + 0x20) + 1;
  }

  /** The memory manager starts from a well-formed tree without any arena frame in it,
      which translates the addresses below 2 GB to themselves, in large pages that can be
      split. */
  lemma BootIsWellFormed(m: Memory)
    requires BootTables(m)
    ensures WellFormed(m, BOOT_ROLES)
    ensures forall f :: f in BOOT_ROLES ==> !InArena(f)
    ensures forall va: nat :: va < TWO31 ==> Translate(m, va) == va
    ensures forall va: nat :: va < TWO31 ==> SplitSafe(m, va)
    ensures AllWritable(m, BOOT_ROLES)
  {
    hide Entry, EntryOk, Translate, BootTables, SplitSafe;
    forall f, i | f in BOOT_ROLES && 0 <= i < 512 ensures EntryOk(BOOT_ROLES, BOOT_ROLES[f], i, Entry(m, f, i)) {
      BootEntryOk(m, f, i);
    }
    hide WritableAt;
    forall f, i | f in BOOT_ROLES && 0 <= i < 512 ensures WritableAt(m, f, i) {
      BootWritable(m, f, i);
    }
    forall va: nat | va < TWO31 ensures Translate(m, va) == va && SplitSafe(m, va) {
      BootTranslates(m, va);
    }
  }

  lemma LowIndices(va: nat)
    requires va < TWO31
    ensures Pml4Index(va) == 0 && PdptIndex(va) < 2
    ensures va == (PdptIndex(va) * 512 + PdIndex(va)) * 0x20_0000 + va % 0x20_0000
  {
    IndicesMakeAddress(va);
    LargeOffset(va);
  }

  lemma BootTranslates(m: Memory, va: nat)
    requires BootTables(m) && va < TWO31
    ensures Translate(m, va) == va && SplitSafe(m, va)
  {
    hide ReadEntry, Pml4Index, PdptIndex, PdIndex, PtIndex, PageOf, ToInt32, LargeBaseOf, Large, Present;
    LowIndices(va);
    var t := PdptIndex(va);
    TableEntryBits(PDPT);
    TableEntryBits(BootPd(t));
    BootEntryBits(t * 512 + PdIndex(va));
    assert Entry(m, BootPd(t), PdIndex(va)) == (t * 512 + PdIndex(va)) * 0x20_0000 + 0x83;
  }
}
