// src/memory/malloc.c: whole pages handed out through alloc_virtual_pages and remembered in a
// table of areas, seen from one address space.

module Heaps {
  import opened Arithmetic
  import opened PhysicalFrames
  import opened PageTables
  import opened AddressSpaces
  import opened VirtualRuns
  import opened VirtualMemory

  const MAX_ALLOCATIONS := 512
  const UINT32 := 0x1_0000_0000
  const NO_PROCESS := 0xffff_ffff
  const USER_PAGES_BEG := MEMORY_PE_COUNT * USER_PDE_BEG

  datatype Area = Area(size: nat, pid: nat, user: bool, virtAddr: nat)

  const NO_AREA := Area(0, 0, false, 0)

  datatype FreeResult = Freed | Refused | Panicked

  function FirstPage(a: Area): nat { a.virtAddr / MEMORY_PAGE_SIZE }
  function PastPage(a: Area): nat { (a.virtAddr + a.size) / MEMORY_PAGE_SIZE }

  // A live area is whole pages, all of them mapped.
  ghost predicate AreaOk(ram: Ram, cr3: nat, a: Area)
    requires cr3 < MEMORY_PAGES
  {
    && a.virtAddr % MEMORY_PAGE_SIZE == 0 && a.size % MEMORY_PAGE_SIZE == 0
    && KERNEL_IMAGE_PAGES <= FirstPage(a) && PastPage(a) <= MEMORY_PAGES
    && forall p: nat | FirstPage(a) <= p < PastPage(a) :: Lookup(ram, cr3, p) != 0
  }

  predicate Apart(a: Area, b: Area) {
    PastPage(a) <= FirstPage(b) || PastPage(b) <= FirstPage(a)
  }

  // Live areas are mapped and pairwise disjoint; a free slot is all zero.
  ghost predicate AreasOk(ram: Ram, cr3: nat, areas: seq<Area>)
    requires cr3 < MEMORY_PAGES
  {
    && (forall i | 0 <= i < |areas| :: if areas[i].size == 0 then areas[i] == NO_AREA else AreaOk(ram, cr3, areas[i]))
    && forall i, j | 0 <= i < j < |areas| && areas[i].size != 0 && areas[j].size != 0 :: Apart(areas[i], areas[j])
  }

  function RoundUp(size: nat): nat
    requires 0 < size
  {
    (1 + (size - 1) / MEMORY_PAGE_SIZE) * MEMORY_PAGE_SIZE
  }

  predicate EndsAtTop(ptr: nat, size: nat) {
    0 < size && ptr + RoundUp(size) == UINT32
  }

  function Pid(activePid: nat): nat { if activePid == NO_PROCESS then 0 else activePid }

  lemma AddArea(ram0: Ram, own0: map<nat, Owner>, free0: set<nat>, ram: Ram, own: map<nat, Owner>,
                cr3: nat, areas: seq<Area>, i: nat, a: Area, count: nat, user: bool)
    requires Live(own0, cr3) && AreasOk(ram0, cr3, areas) && i < |areas| && areas[i].size == 0
    requires a.virtAddr % MEMORY_PAGE_SIZE == 0 && a.size == count * MEMORY_PAGE_SIZE && 0 < count
    requires FirstFit(ram0, cr3, user, count, FirstPage(a)) && FirstPage(a) + count <= MEMORY_PAGES
    requires Mapped(ram0, own0, free0, ram, own, cr3, FirstPage(a), FirstPage(a) + count, user) && 0 !in free0
    ensures AreasOk(ram, cr3, areas[i := a])
  {
    var first, past := FirstPage(a), FirstPage(a) + count;
    assert PastPage(a) == past;
    assert forall p: nat | first <= p < past :: Lookup(ram0, cr3, p) == 0;
    forall j | 0 <= j < |areas| && areas[j].size != 0 ensures AreaOk(ram, cr3, areas[j]) && Apart(areas[j], a) {
      var b := areas[j];
      assert PastPage(b) > FirstPage(b);
      var q := if FirstPage(b) <= first then first else FirstPage(b);
      assert FirstPage(b) <= q < PastPage(b) ==> Lookup(ram0, cr3, q) != 0;
      forall p: nat | FirstPage(b) <= p < PastPage(b) ensures Lookup(ram, cr3, p) != 0 {
        assert !InRun(cr3, first, past, cr3, p);
        assert Lookup(ram0, cr3, p) != 0;
      }
    }
  }

  lemma KeepAreas(ram0: Ram, ram: Ram, own: map<nat, Owner>, cr3: nat, areas: seq<Area>)
    requires Live(own, cr3) && AreasOk(ram0, cr3, areas) && SameTranslations(ram0, ram, own)
    ensures AreasOk(ram, cr3, areas)
  {
    forall p: nat | p < MEMORY_PAGES ensures Lookup(ram, cr3, p) == Lookup(ram0, cr3, p) {
      assert EntryOf(ram, cr3, p) == EntryOf(ram0, cr3, p);
    }
  }

  // Taking an area out of the table and unmapping nothing but its pages keeps the others.
  lemma DropArea(ram0: Ram, ram: Ram, cr3: nat, areas: seq<Area>, i: nat, past: nat)
    requires cr3 < MEMORY_PAGES && AreasOk(ram0, cr3, areas) && i < |areas|
    requires past <= PastPage(areas[i])
    requires forall p: nat | p < MEMORY_PAGES && !(FirstPage(areas[i]) <= p < past) ::
      Lookup(ram, cr3, p) == Lookup(ram0, cr3, p)
    ensures AreasOk(ram, cr3, areas[i := NO_AREA])
  {
    forall j | 0 <= j < |areas| && areas[j].size != 0 && j != i ensures AreaOk(ram, cr3, areas[j]) {
      assert areas[i].size != 0 ==> Apart(areas[i], areas[j]);
      forall p: nat | FirstPage(areas[j]) <= p < PastPage(areas[j]) ensures Lookup(ram, cr3, p) != 0 {
        assert Lookup(ram0, cr3, p) != 0;
      }
    }
  }

  // A live area is found by its address alone.
  lemma AddressIsUnique(ram: Ram, cr3: nat, areas: seq<Area>, i: nat, j: nat)
    requires cr3 < MEMORY_PAGES && AreasOk(ram, cr3, areas) && i < |areas| && j < |areas|
    requires areas[i].virtAddr == areas[j].virtAddr && areas[i].size != 0
    ensures i == j
  {
    assert PastPage(areas[i]) > FirstPage(areas[i]);
    assert areas[j].size != 0 ==> PastPage(areas[j]) > FirstPage(areas[j]);
  }

  predicate Matches(a: Area, ptr: nat, pid: nat) {
    a.virtAddr == ptr && a.pid == pid
  }

  // Where sysfree stops unmapping.
  function EndPage(a: Area): nat {
    (a.virtAddr + a.size) % UINT32 / MEMORY_PAGE_SIZE
  }

  // That is the end of the area, unless the area ends where 32-bit addresses do.
  lemma EndPageWraps(ram: Ram, cr3: nat, a: Area)
    requires cr3 < MEMORY_PAGES && AreaOk(ram, cr3, a) && a.size != 0
    ensures EndPage(a) == PastPage(a) <==> PastPage(a) != MEMORY_PAGES
    ensures PastPage(a) == MEMORY_PAGES ==> EndPage(a) == 0
  {
  }

  lemma AreaBounds(ram: Ram, cr3: nat, areas: seq<Area>, i: nat)
    requires cr3 < MEMORY_PAGES && AreasOk(ram, cr3, areas) && i < |areas|
    ensures areas[i].size == 0 ==> areas[i] == NO_AREA
    ensures areas[i].size != 0 ==> AreaOk(ram, cr3, areas[i])
  {
  }

  lemma LiveAreas(ram: Ram, cr3: nat, areas: seq<Area>)
    requires cr3 < MEMORY_PAGES && AreasOk(ram, cr3, areas)
    ensures forall i, j | 0 <= i < j < |areas| && areas[i].size != 0 && areas[j].size != 0 :: Apart(areas[i], areas[j])
    ensures forall i, p: nat |
      0 <= i < |areas| && areas[i].size != 0 && FirstPage(areas[i]) <= p < PastPage(areas[i]) ::
      p < MEMORY_PAGES && Lookup(ram, cr3, p) != 0
  {
    forall i, p: nat | 0 <= i < |areas| && areas[i].size != 0 && FirstPage(areas[i]) <= p < PastPage(areas[i])
      ensures p < MEMORY_PAGES && Lookup(ram, cr3, p) != 0
    {
      assert AreaOk(ram, cr3, areas[i]);
    }
  }

  lemma ByteIsMapped(ram: Ram, cr3: nat, areas: seq<Area>, i: nat, x: nat)
    requires cr3 < MEMORY_PAGES && AreasOk(ram, cr3, areas) && i < |areas|
    requires areas[i].virtAddr <= x < areas[i].virtAddr + areas[i].size
    ensures x < 0x1_0000_0000 && EntryOf(ram, cr3, x / 0x1000).pagenum != 0
  {
    assert AreaOk(ram, cr3, areas[i]);
    assert FirstPage(areas[i]) <= x / 0x1000 < PastPage(areas[i]);
    assert Lookup(ram, cr3, x / 0x1000) != 0;
  }

  // In plain numbers: the areas are apart byte for byte and end where addresses do.
  lemma LiveAreasPlainly(ram: Ram, cr3: nat, areas: seq<Area>)
    requires cr3 < MEMORY_PAGES && AreasOk(ram, cr3, areas)
    ensures forall i, j | 0 <= i < j < |areas| && areas[i].size != 0 && areas[j].size != 0 ::
      || areas[i].virtAddr + areas[i].size <= areas[j].virtAddr
      || areas[j].virtAddr + areas[j].size <= areas[i].virtAddr
    ensures forall i | 0 <= i < |areas| :: areas[i].virtAddr + areas[i].size <= 0x1_0000_0000
  {
    forall i | 0 <= i < |areas| ensures areas[i].virtAddr + areas[i].size <= 0x1_0000_0000 {
      assert areas[i].size != 0 ==> AreaOk(ram, cr3, areas[i]);
    }
    forall i, j | 0 <= i < j < |areas| && areas[i].size != 0 && areas[j].size != 0
      ensures
        || areas[i].virtAddr + areas[i].size <= areas[j].virtAddr
        || areas[j].virtAddr + areas[j].size <= areas[i].virtAddr
    {
      assert Apart(areas[i], areas[j]) && AreaOk(ram, cr3, areas[i]) && AreaOk(ram, cr3, areas[j]);
    }
  }

  lemma AreaAddress(ram: Ram, cr3: nat, areas: seq<Area>, i: nat)
    requires cr3 < MEMORY_PAGES && AreasOk(ram, cr3, areas) && i < |areas|
    ensures areas[i].virtAddr < UINT32
  {
  }

  lemma FreeSlotIsEmpty(ram: Ram, cr3: nat, areas: seq<Area>)
    requires cr3 < MEMORY_PAGES && AreasOk(ram, cr3, areas)
    ensures forall i | 0 <= i < |areas| && areas[i].size == 0 :: areas[i] == NO_AREA
  {
  }

  predicate FirstFreeSlot(areas: seq<Area>, slot: nat) {
    slot < |areas| && areas[slot].size == 0 && forall j | 0 <= j < slot :: areas[j].size != 0
  }

  // memory_free of so many free frames: no swap, and no more than a 32-bit count can say.
  function MemoryFree(frames: nat): nat {
    if frames * MEMORY_PAGE_SIZE > UINT32 - 1 then UINT32 - 1 else frames * MEMORY_PAGE_SIZE
  }

  // ---- the two calls as steps ----

  datatype HeapState = HeapState(ram: Ram, own: map<nat, Owner>, cr3: nat, free: set<nat>, areas: seq<Area>)

  // Why sysmalloc fails.
  ghost predicate MallocFails(available: int, s: HeapState, size: nat, user: bool)
    requires s.cr3 < MEMORY_PAGES
  {
    || MemoryFree(|s.free|) < size
    || size == 0
    || (forall j | 0 <= j < |s.areas| :: s.areas[j].size != 0)
    || AllocFails(s.ram, s.cr3, user, RoundUp(size) / MEMORY_PAGE_SIZE, |s.free|, available)
  }

  // Otherwise the first free slot of the table describes the first fit, which is now mapped.
  ghost predicate Allotted(s: HeapState, size: nat, pid: nat, user: bool, t: HeapState, ptr: nat, slot: nat)
    requires s.cr3 < MEMORY_PAGES && 0 < size
  {
    var first, count := ptr / MEMORY_PAGE_SIZE, RoundUp(size) / MEMORY_PAGE_SIZE;
    && FirstFreeSlot(s.areas, slot)
    && t.areas == s.areas[slot := Area(RoundUp(size), pid, user, ptr)]
    && ptr % MEMORY_PAGE_SIZE == 0
    && FirstFit(s.ram, s.cr3, user, count, first) && first + count <= MEMORY_PAGES
    && Mapped(s.ram, s.own, s.free, t.ram, t.own, s.cr3, first, first + count, user)
  }

  ghost predicate MallocStep(available: int, s: HeapState, size: nat, pid: nat, user: bool,
                             t: HeapState, ptr: nat, slot: nat)
    requires s.cr3 < MEMORY_PAGES
  {
    && t.cr3 == s.cr3
    && (ptr == 0 <==> MallocFails(available, s, size, user))
    && (ptr == 0 ==>
        t.areas == s.areas && SameTranslations(s.ram, t.ram, s.own) && OnlyTablesAdded(s.own, t.own, s.cr3))
    && (ptr != 0 ==> Allotted(s, size, pid, user, t, ptr, slot))
  }

  predicate FirstMatch(areas: seq<Area>, ptr: nat, pid: nat, slot: nat) {
    && slot < |areas| && Matches(areas[slot], ptr, pid)
    && forall j | 0 <= j < slot :: !Matches(areas[j], ptr, pid)
  }

  // sysfree finds an area by its address and process, and a user's only in the user region.
  predicate CanFree(areas: seq<Area>, ptr: nat, pid: nat, user: bool) {
    && !(user && ptr / MEMORY_PAGE_SIZE < USER_PAGES_BEG)
    && exists i :: 0 <= i < |areas| && Matches(areas[i], ptr, pid)
  }

  // The pages from page up to end of directory pd are unmapped, and nothing else has changed.
  ghost predicate Unmapped(ram0: Ram, own0: map<nat, Owner>, ram: Ram, own: map<nat, Owner>, pd: nat, page: nat,
                           end: nat)
  {
    && own.Keys <= own0.Keys && (forall f | f in own :: own[f] == own0[f])
    && (forall d: nat :: Live(own, d) <==> Live(own0, d))
    && forall d: nat, p: nat | Live(own, d) && p < MEMORY_PAGES ::
         EntryOf(ram, d, p) == if InRun(pd, page, end, d, p) then NULL_PE else EntryOf(ram0, d, p)
  }

  lemma UnmappedNext(ram0: Ram, own0: map<nat, Owner>, ram1: Ram, own1: map<nat, Owner>, ram: Ram,
                     own: map<nat, Owner>, pd: nat, page: nat, end: nat)
    requires Unmapped(ram0, own0, ram1, own1, pd, page, end) && page <= end < MEMORY_PAGES
    requires own.Keys <= own1.Keys && forall f | f in own :: own[f] == own1[f]
    requires forall d: nat :: Live(own, d) <==> Live(own1, d)
    requires forall d: nat, p: nat | Live(own, d) && p < MEMORY_PAGES ::
               EntryOf(ram, d, p) == if SameSlot(pd, end, d, p) then NULL_PE else EntryOf(ram1, d, p)
    ensures Unmapped(ram0, own0, ram, own, pd, page, end + 1)
  {
    hide Live, EntryOf;
  }

  ghost predicate FreeStep(s: HeapState, ptr: nat, pid: nat, user: bool, t: HeapState, result: FreeResult, slot: nat)
    requires s.cr3 < MEMORY_PAGES
  {
    && (result == Freed <==> CanFree(s.areas, ptr, pid, user))
    && (result == Panicked <==> !user && !CanFree(s.areas, ptr, pid, user))
    && (result != Freed ==> t == s)
    && (result == Freed ==>
        && FirstMatch(s.areas, ptr, pid, slot)
        && t.areas == s.areas[slot := NO_AREA] && t.cr3 == s.cr3
        && Unmapped(s.ram, s.own, t.ram, t.own, s.cr3, FirstPage(s.areas[slot]), EndPage(s.areas[slot])))
  }

  // ---- the two calls in plain numbers ----

  lemma MallocFailsPlainly(available: int, s: HeapState, size: nat, user: bool)
    requires s.cr3 < MEMORY_PAGES && IsWord32(size)
    ensures MallocFails(available, s, size, user) <==>
      || |s.free| * 0x1000 < size
      || size == 0
      || (forall j | 0 <= j < |s.areas| :: s.areas[j].size != 0)
      || AllocFails(s.ram, s.cr3, user, (size + 0xfff) / 0x1000, |s.free|, available)
  {
    hide AllocFails;
    assert 0 < size ==> RoundUp(size) / MEMORY_PAGE_SIZE == (size + 0xfff) / 0x1000;
  }

  ghost predicate HeapOk(s: HeapState) {
    Owned(s.ram, s.own) && Live(s.own, s.cr3) && AreasOk(s.ram, s.cr3, s.areas)
  }

  lemma BytePage(size: nat, ptr: nat, x: nat)
    requires 0 < size && ptr % 0x1000 == 0 && ptr <= x < ptr + size
    ensures ptr / MEMORY_PAGE_SIZE <= x / 0x1000 < ptr / MEMORY_PAGE_SIZE + RoundUp(size) / MEMORY_PAGE_SIZE
    ensures x / 0x40_0000 == x / 0x1000 / 1024
  {
  }

  lemma PageUsable(s: HeapState, t: HeapState, first: nat, count: nat, user: bool, page: nat)
    requires HeapOk(s) && HeapOk(t) && t.cr3 == s.cr3 && 0 !in s.free
    requires first <= page < first + count <= MEMORY_PAGES && FirstFit(s.ram, s.cr3, user, count, first)
    requires Mapped(s.ram, s.own, s.free, t.ram, t.own, s.cr3, first, first + count, user)
    ensures var e, f := EntryOf(t.ram, t.cr3, page), Entry(t.ram, t.cr3, page / 1024);
      && EntryOf(s.ram, s.cr3, page).pagenum == 0 && e.pagenum != 0
      && e.present && e.write && (e.user <==> user) && f.present && f.write && (f.user <==> user)
  {
    hide Owned, AreasOk, Mapped, RunFree, Fits, EntryOf, Entry, NoFit;
    assert Fits(s.ram, s.cr3, user, count, first);
    FitsPlainly(s.ram, s.cr3, user, count, first);
    hide FirstFit;
    SameLive(s.ram, s.own, s.free, t.ram, t.own, s.cr3, first, first + count, user);
    RunUsable(s.ram, s.own, s.free, t.ram, t.own, s.cr3, first, count, user, page);
  }

  // A byte of a new area was behind no page, and can now be reached at both levels.
  lemma ByteUsable(s: HeapState, size: nat, pid: nat, user: bool, t: HeapState, ptr: nat, slot: nat, x: nat)
    requires HeapOk(s) && HeapOk(t) && t.cr3 == s.cr3 && 0 < size && 0 !in s.free
    requires Allotted(s, size, pid, user, t, ptr, slot) && ptr <= x < ptr + size && x < 0x1_0000_0000
    ensures var e, f := EntryOf(t.ram, t.cr3, x / 0x1000), Entry(t.ram, t.cr3, x / 0x40_0000);
      && EntryOf(s.ram, s.cr3, x / 0x1000).pagenum == 0 && e.pagenum != 0
      && e.present && e.write && (e.user <==> user) && f.present && f.write && (f.user <==> user)
  {
    hide Owned, AreasOk, Mapped, FirstFit, EntryOf, Entry, RoundUp, FirstFreeSlot;
    BytePage(size, ptr, x);
    PageUsable(s, t, ptr / MEMORY_PAGE_SIZE, RoundUp(size) / MEMORY_PAGE_SIZE, user, x / 0x1000);
  }

  // The area is as large as the request, by less than a page more.
  lemma AllottedPlainly(s: HeapState, size: nat, pid: nat, user: bool, t: HeapState, ptr: nat, slot: nat)
    requires HeapOk(s) && 0 < size && Allotted(s, size, pid, user, t, ptr, slot)
    ensures slot < |t.areas| && t.areas[slot].virtAddr == ptr && t.areas[slot].pid == pid && t.areas[slot].user == user
    ensures size <= t.areas[slot].size < size + 0x1000 && t.areas[slot].size % 0x1000 == 0 && ptr % 0x1000 == 0
    ensures if user then 0x2000_0000 <= ptr && ptr + size <= 0x1_0000_0000
            else 0x40_0000 <= ptr && ptr + size <= 0x1000_0000
  {
    hide Owned, AreasOk, Mapped, RunFree, Fits;
    FitsPlainly(s.ram, s.cr3, user, RoundUp(size) / MEMORY_PAGE_SIZE, ptr / MEMORY_PAGE_SIZE);
  }

  lemma MallocPlainly(available: int, s: HeapState, size: nat, pid: nat, user: bool, t: HeapState, ptr: nat, slot: nat)
    requires HeapOk(s) && HeapOk(t) && IsWord32(size) && 0 !in s.free
    requires MallocStep(available, s, size, pid, user, t, ptr, slot)
    ensures ptr == 0 <==>
      || |s.free| * 0x1000 < size
      || size == 0
      || (forall j | 0 <= j < |s.areas| :: s.areas[j].size != 0)
      || AllocFails(s.ram, s.cr3, user, (size + 0xfff) / 0x1000, |s.free|, available)
    ensures ptr != 0 ==>
      && slot < |t.areas| && t.areas[slot].virtAddr == ptr && t.areas[slot].pid == pid && t.areas[slot].user == user
      && size <= t.areas[slot].size < size + 0x1000 && t.areas[slot].size % 0x1000 == 0 && ptr % 0x1000 == 0
      && (if user then 0x2000_0000 <= ptr && ptr + size <= 0x1_0000_0000
          else 0x40_0000 <= ptr && ptr + size <= 0x1000_0000)
    ensures ptr != 0 ==>
      forall x: nat | ptr <= x < ptr + size ::
        var e, f := EntryOf(t.ram, t.cr3, x / 0x1000), Entry(t.ram, t.cr3, x / 0x40_0000);
        && EntryOf(s.ram, s.cr3, x / 0x1000).pagenum == 0 && e.pagenum != 0
        && e.present && e.write && (e.user <==> user) && f.present && f.write && (f.user <==> user)
  {
    hide AllocFails, MallocFails, EntryOf, Entry, AreasOk, Owned, Allotted;
    MallocFailsPlainly(available, s, size, user);
    if ptr != 0 {
      AllottedPlainly(s, size, pid, user, t, ptr, slot);
      forall x: nat | ptr <= x < ptr + size
        ensures var e, f := EntryOf(t.ram, t.cr3, x / 0x1000), Entry(t.ram, t.cr3, x / 0x40_0000);
          && EntryOf(s.ram, s.cr3, x / 0x1000).pagenum == 0 && e.pagenum != 0
          && e.present && e.write && (e.user <==> user) && f.present && f.write && (f.user <==> user)
      {
        ByteUsable(s, size, pid, user, t, ptr, slot, x);
      }
    }
  }

  lemma FreedPage(s: HeapState, t: HeapState, a: Area, p: nat)
    requires s.cr3 < MEMORY_PAGES && t.cr3 == s.cr3 && Live(t.own, t.cr3) && p < 0x10_0000
    requires a.virtAddr % 0x1000 == 0 && a.size % 0x1000 == 0 && a.virtAddr + a.size <= 0x1_0000_0000
    requires Unmapped(s.ram, s.own, t.ram, t.own, s.cr3, FirstPage(a), EndPage(a))
    ensures EntryOf(t.ram, t.cr3, p) ==
      if a.virtAddr <= p * 0x1000 < a.virtAddr + a.size && a.virtAddr + a.size != 0x1_0000_0000
      then PageEntry(false, false, false, 0) else EntryOf(s.ram, s.cr3, p)
  {
    hide EntryOf, Live;
  }

  // After a free the bytes of the area are behind no page any more, unless it ends at 2^32, and
  // every other page of the address space is what it was.
  lemma FreedPlainly(s: HeapState, ptr: nat, pid: nat, user: bool, t: HeapState, result: FreeResult, slot: nat)
    requires HeapOk(s) && HeapOk(t) && FreeStep(s, ptr, pid, user, t, result, slot) && result == Freed
    ensures slot < |s.areas| && s.areas[slot].virtAddr == ptr && s.areas[slot].pid == pid
    ensures t.areas == s.areas[slot := Area(0, 0, false, 0)] && t.cr3 == s.cr3
    ensures ptr + s.areas[slot].size <= 0x1_0000_0000
    ensures forall p: nat | p < 0x10_0000 ::
      EntryOf(t.ram, t.cr3, p) ==
        if ptr <= p * 0x1000 < ptr + s.areas[slot].size && ptr + s.areas[slot].size != 0x1_0000_0000
        then PageEntry(false, false, false, 0) else EntryOf(s.ram, s.cr3, p)
  {
    hide Owned, AreasOk, Unmapped, EntryOf;
    AreaBounds(s.ram, s.cr3, s.areas, slot);
    forall p: nat | p < 0x10_0000
      ensures EntryOf(t.ram, t.cr3, p) ==
        if ptr <= p * 0x1000 < ptr + s.areas[slot].size && ptr + s.areas[slot].size != 0x1_0000_0000
        then PageEntry(false, false, false, 0) else EntryOf(s.ram, s.cr3, p)
    {
      FreedPage(s, t, s.areas[slot], p);
    }
  }

  lemma FreeResultOf(s: HeapState, ptr: nat, pid: nat, user: bool, t: HeapState, result: FreeResult, slot: nat)
    requires s.cr3 < MEMORY_PAGES && FreeStep(s, ptr, pid, user, t, result, slot)
    ensures result == Freed <==> CanFree(s.areas, ptr, pid, user)
  {
  }

  lemma CanFreePlainly(areas: seq<Area>, ptr: nat, pid: nat, user: bool)
    ensures CanFree(areas, ptr, pid, user) <==>
      !(user && ptr < 0x2000_0000) && exists i :: 0 <= i < |areas| && areas[i].virtAddr == ptr && areas[i].pid == pid
  {
    assert forall i | 0 <= i < |areas| ::
      Matches(areas[i], ptr, pid) <==> areas[i].virtAddr == ptr && areas[i].pid == pid;
  }

  lemma NothingChanged(ram: Ram, own: map<nat, Owner>, pd: nat)
    ensures SameTranslations(ram, ram, own) && OnlyTablesAdded(own, own, pd)
  {
  }

  lemma OthersMapped(ram0: Ram, own0: map<nat, Owner>, ram: Ram, own: map<nat, Owner>, pd: nat, page: nat, end: nat)
    requires Unmapped(ram0, own0, ram, own, pd, page, end) && Live(own, pd)
    ensures forall p: nat | p < MEMORY_PAGES && !(page <= p < end) :: Lookup(ram, pd, p) == Lookup(ram0, pd, p)
  {
  }

  lemma WholePages(size: nat)
    requires 0 < size
    ensures 0 < RoundUp(size) / MEMORY_PAGE_SIZE
    ensures RoundUp(size) == RoundUp(size) / MEMORY_PAGE_SIZE * MEMORY_PAGE_SIZE
  {
  }

  class Heap {
    const vm: Paging
    const areas: array<Area>

    ghost predicate Valid()
      reads this, areas, vm, vm.frames, vm.frames.alloced, vm.frames.noswap
    {
      areas.Length == MAX_ALLOCATIONS && vm.Valid() && AreasOk(vm.ram, vm.cr3, areas[..])
    }

    ghost function Now(): HeapState
      requires vm.frames.Shape()
      reads this, areas, vm, vm.frames.alloced
    {
      HeapState(vm.ram, vm.own, vm.cr3, vm.frames.Free(), areas[..])
    }

    // malloc_init
    constructor (vm: Paging)
      requires vm.Valid()
      ensures Valid() && this.vm == vm && fresh(areas) && forall i | 0 <= i < MAX_ALLOCATIONS :: areas[i] == NO_AREA
    {
      this.vm := vm;
      areas := new Area[MAX_ALLOCATIONS](i => NO_AREA);
    }

    // The search of sysmalloc for a place in the table; MAX_ALLOCATIONS when it is full.
    method FindSlot() returns (i: nat)
      requires areas.Length == MAX_ALLOCATIONS
      ensures i <= MAX_ALLOCATIONS
      ensures i < MAX_ALLOCATIONS ==> FirstFreeSlot(areas[..], i)
      ensures i == MAX_ALLOCATIONS ==> forall j | 0 <= j < MAX_ALLOCATIONS :: areas[j].size != 0
    {
      i := 0;
      while areas[i].size != 0
        invariant i < MAX_ALLOCATIONS
        invariant forall j | 0 <= j < i :: areas[j].size != 0
        decreases MAX_ALLOCATIONS - i
      {
        i := i + 1;
        if i == MAX_ALLOCATIONS {
          return;
        }
      }
    }

    // The second half of sysmalloc: map the pages and fill in entry i of the table.
    method Allot(size0: nat, pid: nat, user: bool, i: nat) returns (ptr: nat)
      requires Valid() && 0 < size0 && IsWord32(RoundUp(size0)) && FirstFreeSlot(areas[..], i)
      modifies vm`ram, vm`own, vm.frames`first, vm.frames`ramPagesFree, vm.frames.alloced, vm.frames.noswap, areas
      ensures Valid() && vm.cr3 == old(vm.cr3)
      ensures ptr == 0 <==>
        AllocFails(old(vm.ram), vm.cr3, user, RoundUp(size0) / MEMORY_PAGE_SIZE, |old(vm.frames.Free())|,
                   vm.frames.ramPages - KERNEL_IMAGE_PAGES)
      ensures ptr == 0 ==>
        && areas[..] == old(areas[..]) && SameTranslations(old(vm.ram), vm.ram, old(vm.own))
        && OnlyTablesAdded(old(vm.own), vm.own, vm.cr3)
      ensures ptr != 0 ==> Allotted(old(Now()), size0, pid, user, Now(), ptr, i)
    {
      hide Mapped, FirstFit, NoFit, AllocFails, AreasOk, Accounted, Owned, SameTranslations, OnlyTablesAdded;
      hide EntryOf, Entry, Lookup, RunCost, Live;
      WholePages(size0);
      hide RoundUp;
      var size := RoundUp(size0) % UINT32;
      assert size == RoundUp(size0);
      var pages := size / MEMORY_PAGE_SIZE;
      ghost var ram0, own0, free0 := vm.ram, vm.own, vm.frames.Free();
      var virtPage := vm.AllocVirtualPages(0, pages, user);
      ptr := virtPage * MEMORY_PAGE_SIZE;
      if virtPage == 0 {
        KeepAreas(ram0, vm.ram, own0, vm.cr3, areas[..]);
        return;
      }
      assert 0 !in free0 by {
        FreshFrames(own0, free0, vm.frames.ramPages);
      }
      AddArea(ram0, own0, free0, vm.ram, vm.own, vm.cr3, areas[..], i, Area(size, pid, user, ptr), pages, user);
      areas[i] := Area(size, pid, user, ptr);
    }

    // The body of sysmalloc: each early return is one cause of failure.
    method Allocate(size0: nat, activePid: nat, user: bool) returns (ptr: nat, ghost slot: nat)
      requires Valid() && IsWord32(size0)
      modifies vm`ram, vm`own, vm.frames`first, vm.frames`ramPagesFree, vm.frames.alloced, vm.frames.noswap, areas
      ensures Valid()
      ensures MallocStep(vm.frames.ramPages - KERNEL_IMAGE_PAGES, old(Now()), size0, Pid(activePid), user,
                         Now(), ptr, slot)
    {
      hide Mapped, FirstFit, NoFit, AllocFails, AreasOk, Accounted, Owned, SameTranslations, OnlyTablesAdded;
      ptr, slot := 0, 0;
      NothingChanged(vm.ram, vm.own, vm.cr3);
      if MemoryFree(vm.frames.ramPagesFree) < size0 {
        return;
      }
      if size0 == 0 {
        return;
      }
      assert RoundUp(size0) < UINT32 by {
        Conservation(vm.own, vm.frames.Free(), vm.frames.ramPages);
      }
      var i := FindSlot();
      if i == MAX_ALLOCATIONS {
        return;
      }
      hide Allotted, RoundUp;
      ptr := Allot(size0, Pid(activePid), user, i);
      slot := i;
    }

    // sysmalloc
    method Sysmalloc(size0: nat, activePid: nat, user: bool) returns (ptr: nat, ghost slot: nat)
      requires Valid() && IsWord32(size0)
      modifies vm`ram, vm`own, vm.frames`first, vm.frames`ramPagesFree, vm.frames.alloced, vm.frames.noswap, areas
      ensures Valid()
      ensures MallocStep(vm.frames.ramPages - KERNEL_IMAGE_PAGES, old(Now()), size0, Pid(activePid), user,
                         Now(), ptr, slot)
      ensures ptr == 0 <==>
        || |old(vm.frames.Free())| * 0x1000 < size0
        || size0 == 0
        || (forall j | 0 <= j < MAX_ALLOCATIONS :: old(areas[j]).size != 0)
        || AllocFails(old(vm.ram), vm.cr3, user, (size0 + 0xfff) / 0x1000, |old(vm.frames.Free())|,
                      vm.frames.ramPages - KERNEL_IMAGE_PAGES)
      ensures ptr != 0 ==>
        && slot < MAX_ALLOCATIONS && areas[slot].virtAddr == ptr && ptr % 0x1000 == 0
        && size0 <= areas[slot].size < size0 + 0x1000 && areas[slot].size % 0x1000 == 0
        && areas[slot].pid == (if activePid == 0xffff_ffff then 0 else activePid) && areas[slot].user == user
        && (if user then 0x2000_0000 <= ptr && ptr + size0 <= 0x1_0000_0000
            else 0x40_0000 <= ptr && ptr + size0 <= 0x1000_0000)
      ensures ptr != 0 ==>
        forall x: nat | ptr <= x < ptr + size0 ::
          var e, t := EntryOf(vm.ram, vm.cr3, x / 0x1000), Entry(vm.ram, vm.cr3, x / 0x40_0000);
          && EntryOf(old(vm.ram), vm.cr3, x / 0x1000).pagenum == 0 && e.pagenum != 0
          && e.present && e.write && (e.user <==> user) && t.present && t.write && (t.user <==> user)
    {
      hide MallocStep, AllocFails, EntryOf, Entry, AreasOk, Owned, Accounted;
      ghost var s := Now();
      FreshFrames(vm.own, vm.frames.Free(), vm.frames.ramPages);
      ptr, slot := Allocate(size0, activePid, user);
      MallocPlainly(vm.frames.ramPages - KERNEL_IMAGE_PAGES, s, size0, Pid(activePid), user, Now(), ptr, slot);
    }

    // The last loop of sysfree; unmap_virtual_page does not panic over any of these pages.
    method FreePages(page: nat, end: nat)
      requires vm.Valid() && (page < end ==> KERNEL_IMAGE_PAGES <= page) && end <= MEMORY_PAGES
      requires forall p: nat | page <= p < end :: Lookup(vm.ram, vm.cr3, p) != 0
      modifies vm`ram, vm`own, vm.frames`first, vm.frames`ramPagesFree, vm.frames.alloced
      ensures vm.Valid()
      ensures Unmapped(old(vm.ram), old(vm.own), vm.ram, vm.own, vm.cr3, page, end)
    {
      hide Owned, Accounted;
      var virtPage := page;
      while virtPage < end
        invariant vm.Valid() && page <= virtPage && (virtPage == page || virtPage <= end)
        invariant Unmapped(old(vm.ram), old(vm.own), vm.ram, vm.own, vm.cr3, page, virtPage)
      {
        assert EntryOf(vm.ram, vm.cr3, virtPage) == EntryOf(old(vm.ram), vm.cr3, virtPage);
        assert Lookup(old(vm.ram), vm.cr3, virtPage) != 0;
        ghost var ram1, own1 := vm.ram, vm.own;
        var ok := vm.UnmapVirtualPage(vm.cr3, virtPage);
        assert ok;
        UnmappedNext(old(vm.ram), old(vm.own), ram1, own1, vm.ram, vm.own, vm.cr3, page, virtPage);
        virtPage := virtPage + 1;
      }
    }

    // The body of sysfree.
    method Release(ptr: nat, activePid: nat, user: bool) returns (result: FreeResult, ghost slot: nat)
      requires Valid() && IsWord32(ptr)
      modifies vm`ram, vm`own, vm.frames`first, vm.frames`ramPagesFree, vm.frames.alloced, areas
      ensures Valid()
      ensures FreeStep(old(Now()), ptr, Pid(activePid), user, Now(), result, slot)
    {
      hide AreasOk, Owned, Accounted, Unmapped;
      slot := 0;
      if user && ptr / MEMORY_PAGE_SIZE < USER_PAGES_BEG {
        return Refused, slot;
      }
      var i: nat := 0;
      while i < MAX_ALLOCATIONS
        invariant i <= MAX_ALLOCATIONS
        invariant forall j | 0 <= j < i :: !Matches(areas[j], ptr, Pid(activePid))
      {
        if Matches(areas[i], ptr, Pid(activePid)) {
          break;
        }
        i := i + 1;
      }
      if i == MAX_ALLOCATIONS {
        return if user then Refused else Panicked, slot;
      }
      slot := i;
      ghost var areas0 := areas[..];
      assert Matches(areas0[i], ptr, Pid(activePid));
      var a := areas[i];
      AreaBounds(vm.ram, vm.cr3, areas0, i);
      var page := a.virtAddr / MEMORY_PAGE_SIZE;
      var end := (a.virtAddr + a.size) % UINT32 / MEMORY_PAGE_SIZE;
      areas[i] := NO_AREA;
      FreePages(page, end);
      OthersMapped(old(vm.ram), old(vm.own), vm.ram, vm.own, vm.cr3, page, end);
      DropArea(old(vm.ram), vm.ram, vm.cr3, areas0, i, if page <= end then end else page);
      result := Freed;
    }

    // sysfree.  The end of the area is a 32-bit address: an area that ends at the very top of
    // the address space is taken out of the table but not unmapped.
    method Sysfree(ptr: nat, activePid: nat, user: bool) returns (result: FreeResult, ghost slot: nat)
      requires Valid() && IsWord32(ptr)
      modifies vm`ram, vm`own, vm.frames`first, vm.frames`ramPagesFree, vm.frames.alloced, areas
      ensures Valid()
      ensures FreeStep(old(Now()), ptr, Pid(activePid), user, Now(), result, slot)
      ensures result == Freed <==>
        && !(user && ptr < 0x2000_0000)
        && exists i :: 0 <= i < MAX_ALLOCATIONS && old(areas[..])[i].virtAddr == ptr
             && old(areas[..])[i].pid == if activePid == 0xffff_ffff then 0 else activePid
      ensures result == Freed ==>
        && slot < MAX_ALLOCATIONS && old(areas[..])[slot].virtAddr == ptr
        && ptr + old(areas[..])[slot].size <= 0x1_0000_0000
        && areas[..] == old(areas[..])[slot := Area(0, 0, false, 0)]
      ensures result == Freed ==>
        var past := ptr + old(areas[..])[slot].size;
        forall p: nat | p < 0x10_0000 ::
          EntryOf(vm.ram, vm.cr3, p) ==
            if ptr <= p * 0x1000 < past && past != 0x1_0000_0000 then PageEntry(false, false, false, 0)
            else EntryOf(old(vm.ram), vm.cr3, p)
    {
      hide FreeStep, EntryOf, AreasOk, Owned, Accounted, CanFree;
      ghost var s := Now();
      result, slot := Release(ptr, activePid, user);
      CanFreePlainly(s.areas, ptr, Pid(activePid), user);
      FreeResultOf(s, ptr, Pid(activePid), user, Now(), result, slot);
      if result == Freed {
        FreedPlainly(s, ptr, Pid(activePid), user, Now(), result, slot);
      }
    }
  }

  // sysfree finds the area that sysmalloc has just entered in the table.
  lemma FoundAgain(s: HeapState, size: nat, pid: nat, user: bool, t: HeapState, ptr: nat, slot: nat,
                   u: HeapState, result: FreeResult, slot2: nat)
    requires HeapOk(s) && HeapOk(t) && t.cr3 == s.cr3 && 0 < size && Allotted(s, size, pid, user, t, ptr, slot)
    requires FreeStep(t, ptr, pid, user, u, result, slot2)
    ensures result == Freed && slot2 == slot < |t.areas| && u.areas == s.areas && u.cr3 == s.cr3
    ensures Unmapped(t.ram, t.own, u.ram, u.own, t.cr3, FirstPage(t.areas[slot]), EndPage(t.areas[slot]))
    ensures t.areas[slot] == Area(RoundUp(size), pid, user, ptr)
  {
    FreeSlotIsEmpty(s.ram, s.cr3, s.areas);
    AreaBounds(t.ram, t.cr3, t.areas, slot);
    assert Matches(t.areas[slot], ptr, pid);
    hide Owned, AreasOk, Mapped, Unmapped, RunFree;
    AddressIsUnique(t.ram, t.cr3, t.areas, slot, slot2);
  }

  lemma PagesBack(s: HeapState, t: HeapState, u: HeapState, first: nat, count: nat, user: bool, end: nat)
    requires HeapOk(s) && t.cr3 == s.cr3 && u.cr3 == s.cr3 && 0 < count && first + count <= MEMORY_PAGES && 0 !in s.free
    requires FirstFit(s.ram, s.cr3, user, count, first)
    requires Mapped(s.ram, s.own, s.free, t.ram, t.own, s.cr3, first, first + count, user)
    requires Unmapped(t.ram, t.own, u.ram, u.own, s.cr3, first, end)
    ensures end == first + count ==> SameTranslations(s.ram, u.ram, s.own)
    ensures end == 0 ==> forall p: nat | first <= p < first + count ::
      Lookup(s.ram, s.cr3, p) == 0 && Lookup(u.ram, s.cr3, p) != 0
  {
    hide Owned, AreasOk, NoFit;
    if end == first + count {
      UndoMapped(s.ram, s.own, s.free, t.ram, t.own, u.ram, s.cr3, first, count, user);
    }
    if end == 0 {
      forall p: nat | first <= p < first + count ensures Lookup(s.ram, s.cr3, p) == 0 && Lookup(u.ram, s.cr3, p) != 0 {
        assert Lookup(t.ram, s.cr3, p) in s.free;
        assert EntryOf(u.ram, s.cr3, p) == EntryOf(t.ram, s.cr3, p);
      }
    }
  }

  lemma WhereItEnds(size: nat, pid: nat, user: bool, ptr: nat)
    requires 0 < size && ptr % MEMORY_PAGE_SIZE == 0
    ensures var a := Area(RoundUp(size), pid, user, ptr);
      var first, count := ptr / MEMORY_PAGE_SIZE, RoundUp(size) / MEMORY_PAGE_SIZE;
      && 0 < count && FirstPage(a) == first
      && (EndsAtTop(ptr, size) <==> first + count == MEMORY_PAGES)
      && (first + count <= MEMORY_PAGES ==> EndPage(a) == if EndsAtTop(ptr, size) then 0 else first + count)
  {
  }

  // What sysmalloc handed out, sysfree takes back: the table and every translation are as
  // before, unless the area reaches the end of the address space.
  lemma TakenBack(s: HeapState, size: nat, pid: nat, user: bool, t: HeapState, ptr: nat, slot: nat,
                  u: HeapState, result: FreeResult, slot2: nat)
    requires HeapOk(s) && HeapOk(t) && t.cr3 == s.cr3 && 0 < size && Allotted(s, size, pid, user, t, ptr, slot)
    requires 0 !in s.free && FreeStep(t, ptr, pid, user, u, result, slot2)
    ensures result == Freed && u.areas == s.areas && u.cr3 == s.cr3
    ensures !EndsAtTop(ptr, size) ==> SameTranslations(s.ram, u.ram, s.own)
    ensures EndsAtTop(ptr, size) ==>
      forall p: nat | ptr / MEMORY_PAGE_SIZE <= p < MEMORY_PAGES ::
        Lookup(s.ram, s.cr3, p) == 0 && Lookup(u.ram, u.cr3, p) != 0
  {
    hide Owned, AreasOk, FirstFreeSlot, FirstFit, Mapped, Unmapped, SameTranslations, RoundUp, EndPage, EndsAtTop;
    hide PastPage;
    hide FreeStep;
    FoundAgain(s, size, pid, user, t, ptr, slot, u, result, slot2);
    WhereItEnds(size, pid, user, ptr);
    var first, count := ptr / MEMORY_PAGE_SIZE, RoundUp(size) / MEMORY_PAGE_SIZE;
    PagesBack(s, t, u, first, count, user, EndPage(t.areas[slot]));
  }

  lemma AtTopPlainly(ptr: nat, size: nat)
    requires ptr % 0x1000 == 0 && 0 < size && ptr + size <= 0x1_0000_0000
    ensures EndsAtTop(ptr, size) <==> ptr + size > 0xffff_f000
  {
  }

  lemma SamePagesPlainly(ram0: Ram, ram: Ram, own: map<nat, Owner>, d: nat)
    requires Live(own, d)
    ensures SameTranslations(ram0, ram, own) ==>
      forall p: nat | p < 0x10_0000 :: EntryOf(ram, d, p).pagenum == EntryOf(ram0, d, p).pagenum
  {
    hide EntryOf;
  }

  // The same through the two calls.
  method MallocThenFree(heap: Heap, size: nat, activePid: nat, user: bool) returns (ptr: nat, result: FreeResult)
    requires heap.Valid() && IsWord32(size)
    modifies heap.vm`ram, heap.vm`own, heap.vm.frames`first, heap.vm.frames`ramPagesFree
    modifies heap.vm.frames.alloced, heap.vm.frames.noswap, heap.areas
    ensures heap.Valid() && heap.areas[..] == old(heap.areas[..])
    ensures ptr == 0 <==> MallocFails(heap.vm.frames.ramPages - KERNEL_IMAGE_PAGES, old(heap.Now()), size, user)
    ensures ptr != 0 ==>
      && result == Freed && ptr % MEMORY_PAGE_SIZE == 0
      && FirstFit(old(heap.vm.ram), heap.vm.cr3, user, RoundUp(size) / MEMORY_PAGE_SIZE, ptr / MEMORY_PAGE_SIZE)
    ensures ptr == 0 || !EndsAtTop(ptr, size) ==> SameTranslations(old(heap.vm.ram), heap.vm.ram, old(heap.vm.own))
    ensures ptr != 0 && EndsAtTop(ptr, size) ==>
      forall p: nat | ptr / MEMORY_PAGE_SIZE <= p < MEMORY_PAGES ::
        Lookup(old(heap.vm.ram), heap.vm.cr3, p) == 0 && Lookup(heap.vm.ram, heap.vm.cr3, p) != 0
    // In plain numbers: the last page of the address space is the one that matters.
    ensures ptr == 0 || ptr + size <= 0xffff_f000 ==>
      forall p: nat | p < 0x10_0000 ::
        EntryOf(heap.vm.ram, heap.vm.cr3, p).pagenum == EntryOf(old(heap.vm.ram), heap.vm.cr3, p).pagenum
    ensures ptr != 0 && ptr + size > 0xffff_f000 ==>
      forall x: nat | ptr <= x < ptr + size ::
        && EntryOf(old(heap.vm.ram), heap.vm.cr3, x / 0x1000).pagenum == 0
        && EntryOf(heap.vm.ram, heap.vm.cr3, x / 0x1000).pagenum != 0
  {
    hide AreasOk, Owned, Accounted, AllocFails, FirstFit, Mapped, SameTranslations, OnlyTablesAdded, FreeStep, EntryOf;
    hide Entry;
    ghost var slot, slot2;
    ghost var s := heap.Now();
    FreshFrames(s.own, s.free, heap.vm.frames.ramPages);
    ptr, slot := heap.Sysmalloc(size, activePid, user);
    result := Refused;
    if ptr != 0 {
      ghost var t := heap.Now();
      AreaAddress(t.ram, t.cr3, t.areas, slot);
      result, slot2 := heap.Sysfree(ptr, activePid, user);
      TakenBack(s, size, Pid(activePid), user, t, ptr, slot, heap.Now(), result, slot2);
      AtTopPlainly(ptr, size);
    }
    SamePagesPlainly(s.ram, heap.vm.ram, s.own, s.cr3);
  }

  const USER_PAGES := RegionEnd(true) - RegionBegin(true)

  // On a machine with 4 GiB of RAM a request for the whole user region succeeds.
  lemma WholeRegionGranted(s: HeapState)
    requires s.cr3 == KERNEL_PAGE_DIRECTORY && |s.free| == MEMORY_PAGES - KERNEL_IMAGE_PAGES
    requires 0 < |s.areas| && s.areas[0] == NO_AREA
    requires forall p: nat | RegionBegin(true) <= p < RegionEnd(true) :: Lookup(s.ram, s.cr3, p) == 0
    ensures !MallocFails(|s.free|, s, USER_PAGES * MEMORY_PAGE_SIZE, true)
    ensures FirstFit(s.ram, s.cr3, true, USER_PAGES, RegionBegin(true))
  {
    FitSucceeds(s.ram, s.cr3, true, USER_PAGES, RegionBegin(true), |s.free|, |s.free|);
    RunCostBound(s.ram, s.cr3, RegionBegin(true), RegionEnd(true));
  }

  lemma RegionIsFull(ram: Ram, d: nat)
    requires d < MEMORY_PAGES
    requires forall p: nat | RegionBegin(true) <= p < RegionEnd(true) :: Lookup(ram, d, p) != 0
    ensures forall count: nat :: NoFit(ram, d, true, count)
  {
    forall count: nat, s: nat ensures !Fits(ram, d, true, count, s) {
      assert RegionBegin(true) <= s < RegionEnd(true) ==> Lookup(ram, d, s) != 0;
    }
  }

  // The area of that request ends where the address space does, so freeing it unmaps nothing: the
  // table says that all is free, and no request of a user, however small, is ever met again.
  method LoseUserRegion(contents: Ram) returns (heap: Heap, ptr: nat, result: FreeResult)
    ensures heap.Valid() && ptr == RegionBegin(true) * MEMORY_PAGE_SIZE && EndsAtTop(ptr, USER_PAGES * MEMORY_PAGE_SIZE)
    ensures result == Freed && forall i | 0 <= i < MAX_ALLOCATIONS :: heap.areas[i] == NO_AREA
    ensures forall p: nat | RegionBegin(true) <= p < RegionEnd(true) :: Lookup(heap.vm.ram, heap.vm.cr3, p) != 0
    ensures forall count: nat :: NoFit(heap.vm.ram, heap.vm.cr3, true, count)
  {
    hide Interval, Owned, AreasOk, Accounted, MallocFails, Fits, FirstFit, NoFit, SameTranslations;
    var vm := new Paging(contents);
    var ok := vm.MemoryInit(4 * 1024 * 1024);
    heap := new Heap(vm);
    ghost var s := heap.Now();
    WholeRegionGranted(s);
    ptr, result := MallocThenFree(heap, USER_PAGES * MEMORY_PAGE_SIZE, NO_PROCESS, true);
    FitIsUnique(s.ram, s.cr3, true, USER_PAGES, RegionBegin(true), ptr / MEMORY_PAGE_SIZE);
    assert forall i | 0 <= i < MAX_ALLOCATIONS :: heap.areas[i] == s.areas[i];
    RegionIsFull(heap.vm.ram, heap.vm.cr3);
  }

  // ---- runs ----

  datatype Request = Malloc(size: nat, user: bool) | Free(ptr: nat, user: bool)

  datatype Outcome = Address(ptr: nat) | Answer(result: FreeResult)

  predicate RequestOk(r: Request) {
    match r
    case Malloc(size, _) => IsWord32(size)
    case Free(ptr, _) => IsWord32(ptr)
  }

  // One call of a process takes s to t.
  ghost predicate HeapStep(available: int, pid: nat, s: HeapState, r: Request, t: HeapState, o: Outcome) {
    && HeapOk(s) && HeapOk(t)
    && match r {
         case Malloc(size, user) =>
           o.Address? && exists slot: nat :: MallocStep(available, s, size, pid, user, t, o.ptr, slot)
         case Free(ptr, user) =>
           o.Answer? && exists slot: nat :: FreeStep(s, ptr, pid, user, t, o.result, slot)
       }
  }

  // The states a run passes through, from an empty table on ...
  ghost predicate Passed(available: int, pid: nat, requests: seq<Request>, states: seq<HeapState>,
                         outcomes: seq<Outcome>)
  {
    && |states| == |outcomes| + 1 && |outcomes| <= |requests|
    && (forall a | a in states[0].areas :: a == NO_AREA)
    && forall i | 0 <= i < |outcomes| ::
         HeapStep(available, pid, states[i], requests[i], states[i + 1], outcomes[i]) && outcomes[i] != Answer(Panicked)
  }

  // ... which ends early only with a call that panics.
  ghost predicate Trace(available: int, pid: nat, requests: seq<Request>, states: seq<HeapState>,
                        outcomes: seq<Outcome>)
  {
    && Passed(available, pid, requests, states, outcomes)
    && (|outcomes| < |requests| ==>
        HeapStep(available, pid, states[|outcomes|], requests[|outcomes|], states[|outcomes|], Answer(Panicked)))
  }

  // The pages of an area are translated alike in both states.
  ghost predicate SamePages(s: HeapState, t: HeapState, a: Area)
    requires s.cr3 < MEMORY_PAGES && t.cr3 < MEMORY_PAGES && PastPage(a) <= MEMORY_PAGES
  {
    forall p: nat | FirstPage(a) <= p < PastPage(a) :: Lookup(t.ram, t.cr3, p) == Lookup(s.ram, s.cr3, p) != 0
  }

  lemma MallocKeeps(available: int, s: HeapState, size: nat, pid: nat, user: bool, t: HeapState, ptr: nat, slot: nat,
                    i: nat)
    requires HeapOk(s) && MallocStep(available, s, size, pid, user, t, ptr, slot)
    requires i < |s.areas| && s.areas[i].size != 0
    ensures |t.areas| == |s.areas| && t.areas[i] == s.areas[i]
    ensures PastPage(s.areas[i]) <= MEMORY_PAGES && SamePages(s, t, s.areas[i])
  {
    AreaBounds(s.ram, s.cr3, s.areas, i);
    hide Owned, AllocFails, MallocFails, AreasOk;
    var a := s.areas[i];
    forall p: nat | FirstPage(a) <= p < PastPage(a) ensures EntryOf(t.ram, t.cr3, p) == EntryOf(s.ram, s.cr3, p) {
      assert Lookup(s.ram, s.cr3, p) != 0;
    }
  }

  lemma OutsideUnmapped(s: HeapState, t: HeapState, page: nat, end: nat, a: Area)
    requires Live(t.own, s.cr3) && t.cr3 == s.cr3 && AreaOk(s.ram, s.cr3, a)
    requires Unmapped(s.ram, s.own, t.ram, t.own, s.cr3, page, end)
    requires end <= FirstPage(a) || PastPage(a) <= page
    ensures SamePages(s, t, a)
  {
    forall p: nat | FirstPage(a) <= p < PastPage(a)
      ensures EntryOf(t.ram, t.cr3, p) == EntryOf(s.ram, s.cr3, p) && Lookup(s.ram, s.cr3, p) != 0
    {
    }
  }

  lemma FreeKeeps(s: HeapState, ptr: nat, pid: nat, user: bool, t: HeapState, result: FreeResult, slot: nat, i: nat)
    requires HeapOk(s) && HeapOk(t) && FreeStep(s, ptr, pid, user, t, result, slot)
    requires i < |s.areas| && s.areas[i].size != 0 && s.areas[i].virtAddr != ptr
    ensures |t.areas| == |s.areas| && t.areas[i] == s.areas[i]
    ensures PastPage(s.areas[i]) <= MEMORY_PAGES && SamePages(s, t, s.areas[i])
  {
    AreaBounds(s.ram, s.cr3, s.areas, i);
    if result == Freed {
      assert s.areas[slot].size != 0 ==> Apart(s.areas[i], s.areas[slot]);
      AreaBounds(s.ram, s.cr3, s.areas, slot);
      hide Owned, AreasOk, AreaOk, Unmapped, SamePages, CanFree;
      OutsideUnmapped(s, t, FirstPage(s.areas[slot]), EndPage(s.areas[slot]), s.areas[i]);
    } else {
      assert AreaOk(s.ram, s.cr3, s.areas[i]);
    }
  }

  // No call but freeing it moves or unmaps a live area.
  lemma AreaStays(available: int, pid: nat, s: HeapState, r: Request, t: HeapState, o: Outcome, i: nat)
    requires HeapStep(available, pid, s, r, t, o) && i < |s.areas| && s.areas[i].size != 0
    requires !(r.Free? && r.ptr == s.areas[i].virtAddr)
    ensures |t.areas| == |s.areas| && t.areas[i] == s.areas[i]
    ensures PastPage(s.areas[i]) <= MEMORY_PAGES && SamePages(s, t, s.areas[i])
  {
    hide Owned, AreasOk, MallocStep, FreeStep, SamePages;
    match r {
      case Malloc(size, user) =>
        var slot: nat :| MallocStep(available, s, size, pid, user, t, o.ptr, slot);
        MallocKeeps(available, s, size, pid, user, t, o.ptr, slot, i);
      case Free(ptr, user) =>
        var slot: nat :| FreeStep(s, ptr, pid, user, t, o.result, slot);
        FreeKeeps(s, ptr, pid, user, t, o.result, slot, i);
    }
  }

  lemma SameBytes(s: HeapState, t: HeapState, a: Area)
    requires s.cr3 < MEMORY_PAGES && t.cr3 < MEMORY_PAGES && AreaOk(t.ram, t.cr3, a) && SamePages(s, t, a)
    ensures a.virtAddr + a.size <= 0x1_0000_0000
    ensures forall x: nat | a.virtAddr <= x < a.virtAddr + a.size ::
      EntryOf(t.ram, t.cr3, x / 0x1000).pagenum == EntryOf(s.ram, s.cr3, x / 0x1000).pagenum != 0
  {
    forall x: nat | a.virtAddr <= x < a.virtAddr + a.size
      ensures EntryOf(t.ram, t.cr3, x / 0x1000).pagenum == EntryOf(s.ram, s.cr3, x / 0x1000).pagenum != 0
    {
      assert FirstPage(a) <= x / 0x1000 < PastPage(a);
      assert Lookup(t.ram, t.cr3, x / 0x1000) == Lookup(s.ram, s.cr3, x / 0x1000);
    }
  }

  // What a call of malloc handed out stays in the table and on the same frames until it is freed.
  lemma {:induction false} AllottedUntilFreed(available: int, pid: nat, requests: seq<Request>, states: seq<HeapState>,
                                              outcomes: seq<Outcome>, k: nat, n: nat)
    returns (i: nat)
    requires Passed(available, pid, requests, states, outcomes) && k < n <= |outcomes|
    requires requests[k].Malloc? && outcomes[k].Address? && outcomes[k].ptr != 0
    requires forall j | k < j < n :: !(requests[j].Free? && requests[j].ptr == outcomes[k].ptr)
    ensures HeapOk(states[n]) && HeapOk(states[k + 1])
    ensures i < |states[n].areas|
    ensures states[n].areas[i] == Area(RoundUp(requests[k].size), pid, requests[k].user, outcomes[k].ptr)
    ensures states[n].areas[i].size != 0 && PastPage(states[n].areas[i]) <= MEMORY_PAGES
    ensures SamePages(states[k + 1], states[n], states[n].areas[i])
    ensures requests[k].size <= states[n].areas[i].size < requests[k].size + 0x1000
    ensures outcomes[k].ptr + states[n].areas[i].size <= 0x1_0000_0000
    ensures forall x: nat | outcomes[k].ptr <= x < outcomes[k].ptr + states[n].areas[i].size ::
      EntryOf(states[n].ram, states[n].cr3, x / 0x1000).pagenum ==
      EntryOf(states[k + 1].ram, states[k + 1].cr3, x / 0x1000).pagenum != 0
  {
    hide EntryOf, Owned, AllocFails, AreasOk, Mapped, SameTranslations, FirstFit, FreeStep;
    var s, t := states[n - 1], states[n];
    assert HeapStep(available, pid, s, requests[n - 1], t, outcomes[n - 1]);
    if n == k + 1 {
      var slot: nat :| MallocStep(available, s, requests[k].size, pid, requests[k].user, t, outcomes[k].ptr, slot);
      i := slot;
      AreaBounds(t.ram, t.cr3, t.areas, i);
    } else {
      i := AllottedUntilFreed(available, pid, requests, states, outcomes, k, n - 1);
      AreaStays(available, pid, s, requests[n - 1], t, outcomes[n - 1], i);
    }
    AreaBounds(t.ram, t.cr3, t.areas, i);
    SameBytes(states[k + 1], t, t.areas[i]);
  }

  method Call(heap: Heap, ghost available: int, activePid: nat, r: Request) returns (o: Outcome)
    requires heap.Valid() && RequestOk(r) && available == heap.vm.frames.ramPages - KERNEL_IMAGE_PAGES
    modifies heap.vm`ram, heap.vm`own, heap.vm.frames`first, heap.vm.frames`ramPagesFree
    modifies heap.vm.frames.alloced, heap.vm.frames.noswap, heap.areas
    ensures heap.Valid()
    ensures HeapStep(available, Pid(activePid), old(heap.Now()), r, heap.Now(), o)
    ensures o == Answer(Panicked) ==> heap.Now() == old(heap.Now())
  {
    hide AreasOk, Owned, Accounted, MallocStep;
    ghost var slot;
    match r {
      case Malloc(size, user) =>
        var ptr;
        ptr, slot := heap.Sysmalloc(size, activePid, user);
        o := Address(ptr);
      case Free(p, user) =>
        var result;
        result, slot := heap.Sysfree(p, activePid, user);
        o := Answer(result);
    }
  }

  // Every run in one address space; live areas are whole pages, all of them mapped, and pairwise
  // disjoint in every state of it.
  method Requests(vm: Paging, activePid: nat, requests: seq<Request>)
    returns (heap: Heap, outcomes: seq<Outcome>, ghost states: seq<HeapState>)
    requires vm.Valid() && forall i | 0 <= i < |requests| :: RequestOk(requests[i])
    modifies vm`ram, vm`own, vm.frames`first, vm.frames`ramPagesFree, vm.frames.alloced, vm.frames.noswap
    ensures heap.vm == vm && heap.Valid()
    ensures Trace(vm.frames.ramPages - KERNEL_IMAGE_PAGES, Pid(activePid), requests, states, outcomes)
    ensures states[0] == HeapState(old(vm.ram), old(vm.own), old(vm.cr3), old(vm.frames.Free()), states[0].areas)
    ensures states[|outcomes|] == heap.Now() && forall i | 0 <= i < |states| :: HeapOk(states[i])
    ensures forall i, j | 0 <= i < j < MAX_ALLOCATIONS && heap.areas[i].size != 0 && heap.areas[j].size != 0 ::
      Apart(heap.areas[i], heap.areas[j])
    ensures forall i, p: nat | 0 <= i < MAX_ALLOCATIONS && heap.areas[i].size != 0
        && FirstPage(heap.areas[i]) <= p < PastPage(heap.areas[i]) :: Lookup(vm.ram, vm.cr3, p) != 0
    ensures forall i, j | 0 <= i < j < MAX_ALLOCATIONS && heap.areas[i].size != 0 && heap.areas[j].size != 0 ::
      || heap.areas[i].virtAddr + heap.areas[i].size <= heap.areas[j].virtAddr
      || heap.areas[j].virtAddr + heap.areas[j].size <= heap.areas[i].virtAddr
    ensures forall i | 0 <= i < MAX_ALLOCATIONS :: heap.areas[i].virtAddr + heap.areas[i].size <= 0x1_0000_0000
    ensures forall i: nat, x: nat | i < MAX_ALLOCATIONS && x < 0x1_0000_0000
        && heap.areas[i].virtAddr <= x < heap.areas[i].virtAddr + heap.areas[i].size ::
      EntryOf(vm.ram, vm.cr3, x / 0x1000).pagenum != 0
  {
    hide AreasOk, Owned, Accounted, MallocStep, FreeStep, EntryOf;
    ghost var available := vm.frames.ramPages - KERNEL_IMAGE_PAGES;
    heap := new Heap(vm);
    outcomes, states := [], [heap.Now()];
    var k: nat := 0;
    while k < |requests|
      invariant k == |outcomes| <= |requests| && fresh(heap) && fresh(heap.areas) && heap.vm == vm && heap.Valid()
      invariant available == vm.frames.ramPages - KERNEL_IMAGE_PAGES
      invariant Passed(available, Pid(activePid), requests, states, outcomes) && states[k] == heap.Now()
      invariant forall i | 0 <= i <= k :: HeapOk(states[i])
      invariant states[0].(areas := []) == old(HeapState(vm.ram, vm.own, vm.cr3, vm.frames.Free(), []))
    {
      var outcome := Call(heap, available, activePid, requests[k]);
      if outcome == Answer(Panicked) {
        break;
      }
      outcomes, states := outcomes + [outcome], states + [heap.Now()];
      k := k + 1;
    }
    LiveAreas(vm.ram, vm.cr3, heap.areas[..]);
    LiveAreasPlainly(vm.ram, vm.cr3, heap.areas[..]);
    assert forall i | 0 <= i < MAX_ALLOCATIONS :: heap.areas[i] == heap.areas[..][i];
    forall i: nat, x: nat | i < MAX_ALLOCATIONS && x < 0x1_0000_0000
        && heap.areas[i].virtAddr <= x < heap.areas[i].virtAddr + heap.areas[i].size
      ensures EntryOf(vm.ram, vm.cr3, x / 0x1000).pagenum != 0
    {
      ByteIsMapped(vm.ram, vm.cr3, heap.areas[..], i, x);
    }
  }
}
