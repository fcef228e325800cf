// Runs of virtual pages: the first-fit search for one, and mapping one page by page.

module VirtualRuns {
  import opened PhysicalFrames
  import opened PageTables
  import opened AddressSpaces

  function RegionBegin(user: bool): nat { (if user then USER_PDE_BEG else KMEM_PDE_BEG) * MEMORY_PE_COUNT }
  function RegionEnd(user: bool): nat { (if user then USER_PDE_END else KMEM_PDE_END) * MEMORY_PE_COUNT }

  // Pages [start, start + count) are all unmapped.
  ghost predicate RunFree(ram: Ram, d: nat, start: nat, count: nat)
    requires d < MEMORY_PAGES
  {
    forall p: nat | start <= p < start + count && p < MEMORY_PAGES :: Lookup(ram, d, p) == 0
  }

  // A request for no pages at all is searched for like a request for one.
  function Need(count: nat): nat { if count == 0 then 1 else count }

  ghost predicate Fits(ram: Ram, d: nat, user: bool, count: nat, start: nat)
    requires d < MEMORY_PAGES
  {
    && RegionBegin(user) <= start && start + Need(count) <= RegionEnd(user)
    && RunFree(ram, d, start, Need(count))
  }

  ghost predicate FirstFit(ram: Ram, d: nat, user: bool, count: nat, start: nat)
    requires d < MEMORY_PAGES
  {
    Fits(ram, d, user, count, start) && forall s: nat | s < start :: !Fits(ram, d, user, count, s)
  }

  ghost predicate NoFit(ram: Ram, d: nat, user: bool, count: nat)
    requires d < MEMORY_PAGES
  {
    forall s: nat :: !Fits(ram, d, user, count, s)
  }

  // In plain numbers: where a run may lie and what it is.
  lemma FitsPlainly(ram: Ram, d: nat, user: bool, count: nat, start: nat)
    requires d < MEMORY_PAGES
    ensures var n := if count == 0 then 1 else count;
      Fits(ram, d, user, count, start) <==>
        && (if user then 0x2_0000 <= start && start + n <= 0x10_0000 else 0x400 <= start && start + n <= 0x1_0000)
        && forall p: nat | start <= p < start + n && p < MEMORY_PAGES :: EntryOf(ram, d, p).pagenum == 0
  {
    assert forall p: nat | p < MEMORY_PAGES :: Lookup(ram, d, p) == EntryOf(ram, d, p).pagenum;
  }

  // In front of the first fit, and anywhere if there is none, a page of every run is mapped.
  lemma MappedInFront(ram: Ram, d: nat, user: bool, count: nat, start: nat, s: nat) returns (p: nat)
    requires d < MEMORY_PAGES
    requires (FirstFit(ram, d, user, count, start) && s < start) || NoFit(ram, d, user, count)
    requires var n := if count == 0 then 1 else count;
      if user then 0x2_0000 <= s && s + n <= 0x10_0000 else 0x400 <= s && s + n <= 0x1_0000
    ensures s <= p < s + (if count == 0 then 1 else count) && p < MEMORY_PAGES && EntryOf(ram, d, p).pagenum != 0
  {
    FitsPlainly(ram, d, user, count, s);
    assert !Fits(ram, d, user, count, s);
    var n := if count == 0 then 1 else count;
    p :| s <= p < s + n && p < MEMORY_PAGES && EntryOf(ram, d, p).pagenum != 0;
  }

  // ---- the search ----

  // Where the search stands before page `at`: the current run of free pages starts at
  // foundBegin (at `at` itself when that is 0), is still too short, and no earlier start will do.
  ghost predicate Searched(ram: Ram, d: nat, lo: nat, foundBegin: nat, at: nat, need: nat)
    requires d < MEMORY_PAGES
  {
    var run := if foundBegin == 0 then at else foundBegin;
    && 0 < lo <= run <= at <= MEMORY_PAGES
    && at - run < need
    && RunFree(ram, d, run, at - run)
    && forall s: nat | lo <= s < run :: !RunFree(ram, d, s, need)
  }

  lemma StartOfSearch(ram: Ram, d: nat, lo: nat, need: nat)
    requires d < MEMORY_PAGES && 0 < lo <= MEMORY_PAGES && 0 < need
    ensures Searched(ram, d, lo, 0, lo, need)
  {
  }

  // A mapped page rules out every start whose run would cross it.
  lemma SkipMapped(ram: Ram, d: nat, lo: nat, foundBegin: nat, at: nat, need: nat)
    requires d < MEMORY_PAGES && at < MEMORY_PAGES
    requires Searched(ram, d, lo, foundBegin, at, need) && Lookup(ram, d, at) != 0
    ensures Searched(ram, d, lo, 0, at + 1, need)
  {
    forall s: nat | lo <= s < at + 1 ensures !RunFree(ram, d, s, need) {
      if s >= (if foundBegin == 0 then at else foundBegin) {
        assert s <= at < s + need;
      }
    }
  }

  // n more free pages either leave the run too short or complete the first fit.
  lemma Extend(ram: Ram, d: nat, user: bool, foundBegin: nat, at: nat, n: nat, count: nat)
    requires d < MEMORY_PAGES && 0 < n && at + n <= RegionEnd(user)
    requires Searched(ram, d, RegionBegin(user), foundBegin, at, Need(count)) && RunFree(ram, d, at, n)
    ensures var run := if foundBegin == 0 then at else foundBegin;
      && 0 < run <= at
      && (at + n - run < count ==> Searched(ram, d, RegionBegin(user), run, at + n, Need(count)))
      && (at + n - run >= count ==> FirstFit(ram, d, user, count, run))
  {
    var run := if foundBegin == 0 then at else foundBegin;
    assert forall p: nat | run <= p < at + n :: Lookup(ram, d, p) == 0;
  }

  lemma Exhausted(ram: Ram, d: nat, user: bool, foundBegin: nat, count: nat)
    requires d < MEMORY_PAGES && Searched(ram, d, RegionBegin(user), foundBegin, RegionEnd(user), Need(count))
    ensures NoFit(ram, d, user, count)
  {
  }

  lemma PageOf(ram: Ram, d: nat, pde: nat, pte: nat)
    requires d < MEMORY_PAGES && pde < MEMORY_PE_COUNT && pte < MEMORY_PE_COUNT
    requires 0 < Entry(ram, d, pde).pagenum < MEMORY_PAGES
    ensures var page := pde * MEMORY_PE_COUNT + pte;
      && page < MEMORY_PAGES && Lookup(ram, d, page) == Entry(ram, Entry(ram, d, pde).pagenum, pte).pagenum
      && (Lookup(ram, d, page) == 0 ==> RunFree(ram, d, page, 1))
  {
    assert (pde * MEMORY_PE_COUNT + pte) / MEMORY_PE_COUNT == pde;
  }

  lemma AbsentTable(ram: Ram, d: nat, pde: nat)
    requires d < MEMORY_PAGES && pde < MEMORY_PE_COUNT && Entry(ram, d, pde).pagenum == 0
    ensures RunFree(ram, d, pde * MEMORY_PE_COUNT, MEMORY_PE_COUNT)
  {
    forall p: nat | pde * MEMORY_PE_COUNT <= p < (pde + 1) * MEMORY_PE_COUNT ensures p / MEMORY_PE_COUNT == pde {
    }
  }

  // ---- what it costs ----

  // Frames it takes to map a page: its own, and a page table when there is none yet.
  function PageCost(ram: Ram, d: nat, page: nat): nat
    requires d < MEMORY_PAGES && page < MEMORY_PAGES
  {
    if Entry(ram, d, page / MEMORY_PE_COUNT).pagenum == 0 then 2 else 1
  }

  // Frames it takes to map the pages from first up to page.
  function RunCost(ram: Ram, d: nat, first: nat, page: nat): nat
    requires d < MEMORY_PAGES && first <= page <= MEMORY_PAGES
    decreases page
  {
    if page == first then 0
    else if first < page - 1 && (page - 2) / MEMORY_PE_COUNT == (page - 1) / MEMORY_PE_COUNT
    then RunCost(ram, d, first, page - 1) + 1
    else RunCost(ram, d, first, page - 1) + PageCost(ram, d, page - 1)
  }

  lemma {:induction false} RunCostGrows(ram: Ram, d: nat, first: nat, page1: nat, page2: nat)
    requires d < MEMORY_PAGES && first <= page1 <= page2 <= MEMORY_PAGES
    ensures RunCost(ram, d, first, page1) <= RunCost(ram, d, first, page2)
    decreases page2
  {
    if page1 < page2 {
      RunCostGrows(ram, d, first, page1, page2 - 1);
    }
  }

  // No more than a frame a page and one for each page table the run reaches into.
  lemma {:induction false} RunCostBound(ram: Ram, d: nat, first: nat, page: nat)
    requires d < MEMORY_PAGES && first < page <= MEMORY_PAGES
    ensures RunCost(ram, d, first, page) <=
      page - first + (page - 1) / MEMORY_PE_COUNT - first / MEMORY_PE_COUNT + 1
    decreases page
  {
    if first < page - 1 {
      RunCostBound(ram, d, first, page - 1);
    }
  }

  // Which of d's page tables exist once the pages from first up to page are mapped.
  ghost predicate TablesUpTo(ram0: Ram, ram: Ram, d: nat, first: nat, page: nat)
    requires d < MEMORY_PAGES && first <= page <= MEMORY_PAGES
  {
    forall k: nat | k < MEMORY_PE_COUNT ::
      Entry(ram, d, k).pagenum != 0 <==>
        || Entry(ram0, d, k).pagenum != 0
        || (first < page && first / MEMORY_PE_COUNT <= k <= (page - 1) / MEMORY_PE_COUNT)
  }

  // Why alloc_virtual_pages fails: for the kernel, RAM could never back so many pages; no run of
  // the region is long enough; or the free frames do not cover the first one that is.
  ghost predicate AllocFails(ram: Ram, d: nat, user: bool, count: nat, free: nat, available: int)
    requires d < MEMORY_PAGES
  {
    || (!user && count >= available)
    || NoFit(ram, d, user, count)
    || exists s: nat ::
         s + count <= MEMORY_PAGES && FirstFit(ram, d, user, count, s) && RunCost(ram, d, s, s + count) > free
  }

  lemma FitIsUnique(ram: Ram, d: nat, user: bool, count: nat, s1: nat, s2: nat)
    requires d < MEMORY_PAGES && FirstFit(ram, d, user, count, s1) && FirstFit(ram, d, user, count, s2)
    ensures s1 == s2
  {
    assert Fits(ram, d, user, count, s1) && Fits(ram, d, user, count, s2);
  }

  lemma NoRun(ram: Ram, d: nat, user: bool, count: nat, free: nat, available: int)
    requires d < MEMORY_PAGES && ((!user && count >= available) || NoFit(ram, d, user, count))
    ensures AllocFails(ram, d, user, count, free, available)
  {
  }

  lemma FitSucceeds(ram: Ram, d: nat, user: bool, count: nat, first: nat, free: nat, available: int)
    requires d < MEMORY_PAGES && first + count <= MEMORY_PAGES && FirstFit(ram, d, user, count, first)
    requires user || count < available
    ensures AllocFails(ram, d, user, count, free, available) <==> RunCost(ram, d, first, first + count) > free
  {
    forall s: nat | FirstFit(ram, d, user, count, s) ensures s == first {
      FitIsUnique(ram, d, user, count, s, first);
    }
  }

  lemma NextCost(ram0: Ram, ram: Ram, d: nat, first: nat, page: nat)
    requires d < MEMORY_PAGES && first <= page < MEMORY_PAGES && TablesUpTo(ram0, ram, d, first, page)
    ensures RunCost(ram0, d, first, page + 1) == RunCost(ram0, d, first, page) + PageCost(ram, d, page)
  {
  }

  lemma NextTables(ram0: Ram, ram: Ram, ram': Ram, d: nat, first: nat, page: nat)
    requires d < MEMORY_PAGES && first <= page < MEMORY_PAGES && TablesUpTo(ram0, ram, d, first, page)
    requires forall k: nat | k < MEMORY_PE_COUNT ::
      Entry(ram', d, k).pagenum != 0 <==> k == page / MEMORY_PE_COUNT || Entry(ram, d, k).pagenum != 0
    ensures TablesUpTo(ram0, ram', d, first, page + 1)
  {
  }

  // ---- mapping a run ----

  ghost predicate SameTranslations(ram1: Ram, ram2: Ram, own: map<nat, Owner>) {
    forall d: nat, p: nat | Live(own, d) && p < MEMORY_PAGES :: EntryOf(ram2, d, p) == EntryOf(ram1, d, p)
  }

  // own2 is own1 with some more page tables of directory pd.
  ghost predicate OnlyTablesAdded(own1: map<nat, Owner>, own2: map<nat, Owner>, pd: nat) {
    && (forall f | f in own1 :: f in own2 && own2[f] == own1[f])
    && (forall f | f in own2 && f !in own1 :: own2[f].Table? && own2[f].dir == pd)
  }

  predicate InRun(pd: nat, first: nat, page: nat, d: nat, p: nat) {
    first <= p < page && (d == pd || p < KMEM_PAGES_END)
  }

  // From (ram0, own0, free0), the pages from first up to page have been mapped in pd, each to a
  // frame that was free, and nothing else is translated differently.
  ghost predicate Mapped(ram0: Ram, own0: map<nat, Owner>, free0: set<nat>, ram: Ram, own: map<nat, Owner>,
                         pd: nat, first: nat, page: nat, user: bool)
    requires pd < MEMORY_PAGES && first <= page <= MEMORY_PAGES
  {
    && (forall d: nat :: Live(own, d) <==> Live(own0, d))
    && (forall p: nat | first <= p < page ::
         Lookup(ram, pd, p) in free0 && EntryOf(ram, pd, p) == NewPe(Lookup(ram, pd, p), user))
    && (forall d: nat, p: nat | Live(own0, d) && p < MEMORY_PAGES ::
         EntryOf(ram, d, p) == if InRun(pd, first, page, d, p) then EntryOf(ram, pd, p) else EntryOf(ram0, d, p))
    && (forall f | f in own0 :: f in own && own[f] == own0[f])
    && (forall f | f in own && f !in own0 && !(own[f].Table? && own[f].dir == pd) ::
         exists p: nat :: first <= p < page && Lookup(ram, pd, p) == f)
  }

  lemma NothingMapped(ram: Ram, own: map<nat, Owner>, free: set<nat>, pd: nat, first: nat, user: bool)
    requires pd < MEMORY_PAGES && first <= MEMORY_PAGES
    ensures Mapped(ram, own, free, ram, own, pd, first, first, user)
    ensures TablesUpTo(ram, ram, pd, first, first)
    ensures RunCost(ram, pd, first, first) == 0
  {
  }

  lemma UnmappedYet(ram0: Ram, own0: map<nat, Owner>, free0: set<nat>, ram: Ram, own: map<nat, Owner>,
                    pd: nat, first: nat, page: nat, count: nat, user: bool)
    requires Live(own0, pd) && first <= page < MEMORY_PAGES && page < first + count
    requires Mapped(ram0, own0, free0, ram, own, pd, first, page, user) && FirstFit(ram0, pd, user, count, first)
    ensures Lookup(ram, pd, page) == 0 && KERNEL_IMAGE_PAGES <= page
  {
    assert Lookup(ram0, pd, page) == 0;
    assert !InRun(pd, first, page, pd, page);
  }

  lemma MapNext(ram0: Ram, own0: map<nat, Owner>, free0: set<nat>, ram: Ram, own: map<nat, Owner>, free: set<nat>,
                ram': Ram, own': map<nat, Owner>, pd: nat, first: nat, page: nat, user: bool)
    requires Live(own0, pd) && first <= page < MEMORY_PAGES
    requires Mapped(ram0, own0, free0, ram, own, pd, first, page, user) && free <= free0
    requires Lookup(ram', pd, page) in free && EntryOf(ram', pd, page) == NewPe(Lookup(ram', pd, page), user)
    requires OnlyTablesAdded(own, own' - {Lookup(ram', pd, page)}, pd) && Lookup(ram', pd, page) in own'
    requires forall d: nat :: Live(own', d) <==> Live(own, d)
    requires forall d: nat, p: nat | Live(own, d) && p < MEMORY_PAGES ::
      EntryOf(ram', d, p) == if SameSlot(pd, page, d, p) then EntryOf(ram', pd, page) else EntryOf(ram, d, p)
    ensures Mapped(ram0, own0, free0, ram', own', pd, first, page + 1, user)
  {
    forall d: nat, p: nat | Live(own0, d) && p < MEMORY_PAGES
      ensures EntryOf(ram', d, p) ==
        if InRun(pd, first, page + 1, d, p) then EntryOf(ram', pd, p) else EntryOf(ram0, d, p)
    {
      assert Live(own, d) && Live(own, pd);
    }
    forall p: nat | first <= p < page + 1
      ensures Lookup(ram', pd, p) in free0 && EntryOf(ram', pd, p) == NewPe(Lookup(ram', pd, p), user)
    {
      assert p != page ==> EntryOf(ram', pd, p) == EntryOf(ram, pd, p);
    }
    forall f | f in own' && f !in own0 && !(own'[f].Table? && own'[f].dir == pd)
      ensures exists p: nat :: first <= p < page + 1 && Lookup(ram', pd, p) == f
    {
      if f != Lookup(ram', pd, page) {
        assert f in own' - {Lookup(ram', pd, page)};
        assert f in own && own[f] == own'[f];
        var p: nat :| first <= p < page && Lookup(ram, pd, p) == f;
        assert Lookup(ram', pd, p) == f;
      }
    }
  }

  lemma MapFailed(ram0: Ram, own0: map<nat, Owner>, free0: set<nat>, ram: Ram, own: map<nat, Owner>,
                  ram': Ram, own': map<nat, Owner>, pd: nat, first: nat, page: nat, user: bool)
    requires Live(own0, pd) && first <= page <= MEMORY_PAGES
    requires Mapped(ram0, own0, free0, ram, own, pd, first, page, user)
    requires SameTranslations(ram, ram', own) && OnlyTablesAdded(own, own', pd)
    requires forall d: nat :: Live(own', d) <==> Live(own, d)
    ensures Mapped(ram0, own0, free0, ram', own', pd, first, page, user)
  {
    forall f | f in own' && f !in own0 && !(own'[f].Table? && own'[f].dir == pd)
      ensures exists p: nat :: first <= p < page && Lookup(ram', pd, p) == f
    {
      assert f in own && own[f] == own'[f];
      var p: nat :| first <= p < page && Lookup(ram, pd, p) == f;
      assert Lookup(ram', pd, p) == f;
    }
  }

  lemma UnmapLast(ram0: Ram, own0: map<nat, Owner>, free0: set<nat>, ram: Ram, own: map<nat, Owner>,
                  ram': Ram, own': map<nat, Owner>, pd: nat, first: nat, page: nat, count: nat, user: bool)
    requires Owned(ram0, own0) && Live(own0, pd) && first <= page < MEMORY_PAGES && page < first + count
    requires Mapped(ram0, own0, free0, ram, own, pd, first, page + 1, user) && FirstFit(ram0, pd, user, count, first)
    requires forall f | f in free0 :: f !in own0
    requires own' == own - {Lookup(ram, pd, page)}
    requires forall d: nat :: Live(own', d) <==> Live(own, d)
    requires forall d: nat, p: nat | Live(own, d) && p < MEMORY_PAGES ::
      EntryOf(ram', d, p) == if SameSlot(pd, page, d, p) then NULL_PE else EntryOf(ram, d, p)
    ensures Mapped(ram0, own0, free0, ram', own', pd, first, page, user)
  {
    forall d: nat, p: nat | Live(own0, d) && p < MEMORY_PAGES
      ensures EntryOf(ram', d, p) == if InRun(pd, first, page, d, p) then EntryOf(ram', pd, p) else EntryOf(ram0, d, p)
    {
      assert Live(own, d) && Live(own, pd);
      if SameSlot(pd, page, d, p) {
        assert Lookup(ram0, pd, page) == 0;
        UnmappedIsNull(ram0, own0, pd, page);
        if d != pd {
          KernelPagesShared(ram0, own0, d, pd, page);
        }
      }
    }
    forall f | f in own' && f !in own0 && !(own'[f].Table? && own'[f].dir == pd)
      ensures exists p: nat :: first <= p < page && Lookup(ram', pd, p) == f
    {
      var p: nat :| first <= p < page + 1 && Lookup(ram, pd, p) == f;
      assert Lookup(ram', pd, p) == f;
    }
  }

  lemma LastIsMapped(ram0: Ram, own0: map<nat, Owner>, free0: set<nat>, ram: Ram, own: map<nat, Owner>,
                     pd: nat, first: nat, page: nat, count: nat, user: bool)
    requires pd < MEMORY_PAGES && first <= page < MEMORY_PAGES && 0 !in free0
    requires Mapped(ram0, own0, free0, ram, own, pd, first, page + 1, user) && FirstFit(ram0, pd, user, count, first)
    ensures Lookup(ram, pd, page) != 0 && KERNEL_IMAGE_PAGES <= page
    ensures forall d: nat :: Live(own, d) <==> Live(own0, d)
  {
  }

  lemma SameLive(ram0: Ram, own0: map<nat, Owner>, free0: set<nat>, ram: Ram, own: map<nat, Owner>,
                 pd: nat, first: nat, page: nat, user: bool)
    requires pd < MEMORY_PAGES && first <= page <= MEMORY_PAGES
    requires Mapped(ram0, own0, free0, ram, own, pd, first, page, user)
    ensures forall d: nat :: Live(own, d) <==> Live(own0, d)
  {
  }

  // With every page unmapped again, all translations are the old ones and the only new owners
  // are page tables.
  lemma BackToStart(ram0: Ram, own0: map<nat, Owner>, free0: set<nat>, ram: Ram, own: map<nat, Owner>,
                    pd: nat, first: nat, user: bool)
    requires pd < MEMORY_PAGES && first <= MEMORY_PAGES
    requires Mapped(ram0, own0, free0, ram, own, pd, first, first, user)
    ensures SameTranslations(ram0, ram, own0) && OnlyTablesAdded(own0, own, pd)
  {
  }

  lemma FitInRange(ram: Ram, d: nat, user: bool, count: nat, start: nat)
    requires d < MEMORY_PAGES && FirstFit(ram, d, user, count, start)
    ensures KERNEL_IMAGE_PAGES <= start && start + count <= MEMORY_PAGES
  {
  }

  // The page tables left behind by a failed allocation hold nothing.
  lemma AddedTablesEmpty(ram1: Ram, own1: map<nat, Owner>, ram2: Ram, own2: map<nat, Owner>, pd: nat, t: nat, i: nat)
    requires Owned(ram1, own1) && Owned(ram2, own2)
    requires SameTranslations(ram1, ram2, own1) && OnlyTablesAdded(own1, own2, pd)
    requires t in own2 && t !in own1 && i < MEMORY_PE_COUNT
    ensures t < MEMORY_PAGES && own2[t].Table? && Entry(ram2, t, i) == NULL_PE
  {
    var d, pde := own2[t].dir, own2[t].pde;
    var page := pde * MEMORY_PE_COUNT + i;
    assert page / MEMORY_PE_COUNT == pde && page % MEMORY_PE_COUNT == i;
    assert Live(own1, d);
    assert EntryOf(ram2, d, page) == EntryOf(ram1, d, page);
    TableOf(ram1, own1, d, page);
  }

  // Unmapping a run that was mapped into free pages restores every translation.
  lemma UndoMapped(ram0: Ram, own0: map<nat, Owner>, free0: set<nat>, ram1: Ram, own1: map<nat, Owner>, ram2: Ram,
                   pd: nat, first: nat, count: nat, user: bool)
    requires Owned(ram0, own0) && Live(own0, pd) && first + count <= MEMORY_PAGES
    requires FirstFit(ram0, pd, user, count, first)
    requires Mapped(ram0, own0, free0, ram1, own1, pd, first, first + count, user)
    requires forall d: nat, p: nat | Live(own0, d) && p < MEMORY_PAGES ::
      EntryOf(ram2, d, p) == if InRun(pd, first, first + count, d, p) then NULL_PE else EntryOf(ram1, d, p)
    ensures SameTranslations(ram0, ram2, own0)
  {
    forall d: nat, p: nat | Live(own0, d) && p < MEMORY_PAGES ensures EntryOf(ram2, d, p) == EntryOf(ram0, d, p) {
      if InRun(pd, first, first + count, d, p) {
        assert Lookup(ram0, pd, p) == 0;
        UnmappedIsNull(ram0, own0, pd, p);
        if d != pd {
          KernelPagesShared(ram0, own0, d, pd, p);
        }
      }
    }
  }

  // What else there is: the frames of the run are different, and no other page of any directory is
  // translated differently, but for those that share the kernel's tables.
  lemma RunAlone(ram0: Ram, own0: map<nat, Owner>, free0: set<nat>, ram: Ram, own: map<nat, Owner>,
                 pd: nat, first: nat, count: nat, user: bool)
    requires Owned(ram, own) && Live(own, pd) && first + count <= MEMORY_PAGES && 0 !in free0
    requires FirstFit(ram0, pd, user, count, first)
    requires Mapped(ram0, own0, free0, ram, own, pd, first, first + count, user)
    ensures forall p: nat, q: nat | first <= p < q < first + count ::
              EntryOf(ram, pd, p).pagenum != EntryOf(ram, pd, q).pagenum
    ensures forall d: nat, p: nat | Live(own0, d) && p < 0x10_0000 ::
              (first <= p < first + count && (d == pd || !user)) || EntryOf(ram, d, p) == EntryOf(ram0, d, p)
  {
    hide Owned;
    forall p: nat, q: nat | first <= p < q < first + count
      ensures EntryOf(ram, pd, p).pagenum != EntryOf(ram, pd, q).pagenum
    {
      assert Lookup(ram, pd, p) in free0 && Lookup(ram, pd, q) in free0;
      if Lookup(ram, pd, p) == Lookup(ram, pd, q) {
        Isolation(ram, own, pd, p, pd, q);
      }
    }
  }

  // Both levels of every page of a run that was mapped can be read and written, by programs if
  // and only if it was mapped for them.
  lemma RunUsable(ram0: Ram, own0: map<nat, Owner>, free0: set<nat>, ram: Ram, own: map<nat, Owner>,
                  pd: nat, first: nat, count: nat, user: bool, p: nat)
    requires Owned(ram, own) && Live(own, pd) && first <= p < first + count <= MEMORY_PAGES && 0 !in free0
    requires FirstFit(ram0, pd, user, count, first)
    requires Mapped(ram0, own0, free0, ram, own, pd, first, first + count, user)
    ensures var e, t := EntryOf(ram, pd, p), Entry(ram, pd, p / MEMORY_PE_COUNT);
      && e.present && e.write && (e.user <==> user) && e.pagenum in free0
      && t.present && t.write && (t.user <==> user)
  {
    FitsPlainly(ram0, pd, user, count, first);
    hide Owned;
    assert Lookup(ram, pd, p) in free0;
    DirectoryUsable(ram, own, pd, p);
  }
}
