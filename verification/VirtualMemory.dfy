// src/memory/memory.c and the paging half of src/memory/init.c: mapping and unmapping pages,
// allocating runs of them, and building and freeing page directories.

module VirtualMemory {
  import opened PhysicalFrames
  import opened PageTables
  import opened AddressSpaces
  import opened VirtualRuns
  import opened Territories

  // A frame of RAM above the kernel is either free or has an owner, never both.
  ghost predicate Accounted(own: map<nat, Owner>, free: set<nat>, ramPages: nat) {
    && (forall f: nat :: f in own || f in free <==> KERNEL_IMAGE_PAGES <= f < ramPages)
    && (forall f: nat | f in own :: f !in free)
  }

  lemma AccountedAlloc(own: map<nat, Owner>, free: set<nat>, ramPages: nat, f: nat, owner: Owner)
    requires Accounted(own, free, ramPages) && f in free
    ensures KERNEL_IMAGE_PAGES <= f < ramPages && f !in own
    ensures Accounted(own[f := owner], free - {f}, ramPages)
  {
  }

  // A frame that is lost is still accounted for.
  lemma AccountedDropped(own: map<nat, Owner>, free: set<nat>, ramPages: nat, g: nat)
    requires Accounted(own, free, ramPages) && (g == 0 || g in own)
    ensures Accounted(Dropped(own, g), free, ramPages)
  {
  }

  lemma WithoutNew(own: map<nat, Owner>, f: nat, owner: Owner)
    requires f !in own
    ensures own[f := owner] - {f} == own
  {
  }

  lemma AccountedFree(own: map<nat, Owner>, free: set<nat>, ramPages: nat, f: nat)
    requires Accounted(own, free, ramPages) && f in own
    ensures KERNEL_IMAGE_PAGES <= f < ramPages && f !in free
    ensures Accounted(own - {f}, free + {f}, ramPages)
  {
  }

  // Nothing is lost: free and owned frames together are all of RAM above the kernel.
  lemma Conservation(own: map<nat, Owner>, free: set<nat>, ramPages: nat)
    requires Accounted(own, free, ramPages) && KERNEL_IMAGE_PAGES <= ramPages
    ensures |own.Keys| + |free| == ramPages - KERNEL_IMAGE_PAGES
  {
    assert own.Keys + free == Interval(KERNEL_IMAGE_PAGES, ramPages);
    assert own.Keys !! free;
  }

  lemma FreshFrames(own: map<nat, Owner>, free: set<nat>, ramPages: nat)
    requires Accounted(own, free, ramPages)
    ensures forall f | f in free :: f !in own && f != 0
  {
  }

  // The kernel directory names its first n page tables; those are empty but for the entries
  // that map the first m pages onto themselves.
  ghost predicate KernelTables(ram: Ram, n: nat, m: nat) {
    && (forall k: nat | k < MEMORY_PE_COUNT ::
         Entry(ram, KERNEL_PAGE_DIRECTORY, k) == if k < n then KernelPe(KERNEL_PAGE_TABLES + k) else NULL_PE)
    && (forall t: nat, k: nat | KERNEL_PAGE_TABLES <= t < KERNEL_PAGE_TABLES + KMEM_PDE_END && k < MEMORY_PE_COUNT ::
         Entry(ram, t, k) == if t == KERNEL_PAGE_TABLES && k < m then KernelPe(k) else NULL_PE)
  }

  lemma NothingOwnedYet(ram: Ram)
    requires KernelTables(ram, KMEM_PDE_END, KERNEL_IMAGE_PAGES)
    ensures Owned(ram, map[])
  {
    hide EntryOf, Lookup;
  }

  lemma KernelTranslation(ram: Ram)
    requires KernelTables(ram, KMEM_PDE_END, KERNEL_IMAGE_PAGES)
    ensures forall p: nat | p < MEMORY_PAGES ::
      Lookup(ram, KERNEL_PAGE_DIRECTORY, p) == if p < KERNEL_IMAGE_PAGES then p else 0
    ensures forall k: nat | k < 64 :: Entry(ram, 0x3f, k) == PageEntry(true, true, false, 0x40 + k)
    ensures forall p: nat | p < 512 :: EntryOf(ram, 0x3f, p) == PageEntry(true, true, false, p)
  {
  }

  lemma KernelTablesOwned(ram: Ram)
    requires KernelTables(ram, KMEM_PDE_END, KERNEL_IMAGE_PAGES)
    ensures Owned(ram, map[])
    ensures forall p: nat | p < MEMORY_PAGES ::
      Lookup(ram, KERNEL_PAGE_DIRECTORY, p) == if p < KERNEL_IMAGE_PAGES then p else 0
    ensures forall k: nat | k < 64 :: Entry(ram, 0x3f, k) == PageEntry(true, true, false, 0x40 + k)
    ensures forall p: nat | p < 512 :: EntryOf(ram, 0x3f, p) == PageEntry(true, true, false, p)
  {
    hide *;
    NothingOwnedYet(ram);
    KernelTranslation(ram);
  }

  class Paging {
    const frames: FrameAllocator
    var ram: Ram
    var cr3: nat
    ghost var own: map<nat, Owner>

    ghost predicate Valid()
      reads this, frames, frames.alloced, frames.noswap
    {
      && frames.Valid()
      && frames.kernelRamPages == KERNEL_IMAGE_PAGES < frames.ramPages <= MEMORY_PAGES
      && Owned(ram, own)
      && Live(own, cr3)
      && Accounted(own, frames.Free(), frames.ramPages)
    }

    constructor (contents: Ram)
      ensures frames.Shape() && frames.first == 0 && ram == contents
      ensures fresh(frames) && fresh(frames.alloced) && fresh(frames.noswap)
    {
      frames := new FrameAllocator();
      ram := contents;
      cr3 := KERNEL_PAGE_DIRECTORY;
      own := map[];
    }

    method BuildKernelTables()
      modifies this`ram
      ensures KernelTables(ram, KMEM_PDE_END, KERNEL_IMAGE_PAGES)
    {
      ram := Overwrite(ram, KERNEL_PAGE_DIRECTORY, NULL_TABLE);
      for i := 0 to KMEM_PDE_END
        invariant forall k: nat | k < MEMORY_PE_COUNT :: Entry(ram, KERNEL_PAGE_DIRECTORY, k) == NULL_PE
        invariant forall t: nat, k: nat | KERNEL_PAGE_TABLES <= t < KERNEL_PAGE_TABLES + i && k < MEMORY_PE_COUNT ::
          Entry(ram, t, k) == NULL_PE
      {
        ram := Overwrite(ram, KERNEL_PAGE_TABLES + i, NULL_TABLE);
      }
      for i := 0 to KMEM_PDE_END
        invariant KernelTables(ram, i, 0)
      {
        ram := Put(ram, KERNEL_PAGE_DIRECTORY, i, KernelPe(KERNEL_PAGE_TABLES + i));
      }
      for i := 0 to KERNEL_IMAGE_PAGES
        invariant KernelTables(ram, KMEM_PDE_END, i)
      {
        ram := Put(ram, KERNEL_PAGE_TABLES, i, KernelPe(i));
      }
    }

    // memory_init; false is the panic over too little RAM.
    method MemoryInit(memKib: nat) returns (ok: bool)
      requires frames.Shape() && frames.first == 0
      requires memKib / (MEMORY_PAGE_SIZE / 1024) <= MEMORY_PAGES
      modifies this`ram, this`cr3, this`own, frames`ramPages, frames`kernelRamPages, frames`ramPagesFree
      modifies frames.alloced, frames.noswap
      ensures ok <==> 16 < memKib / (MEMORY_PAGE_SIZE / 1024) / 32
      ensures ok ==> Valid() && own == map[] && cr3 == KERNEL_PAGE_DIRECTORY
      ensures ok ==> frames.ramPages == memKib / (MEMORY_PAGE_SIZE / 1024)
      ensures ok ==> frames.Free() == Interval(KERNEL_IMAGE_PAGES, frames.ramPages)
      ensures ok ==> forall p: nat | p < MEMORY_PAGES :: Lookup(ram, cr3, p) == if p < KERNEL_IMAGE_PAGES then p else 0
      // Both levels are open to the kernel and not to programs.
      ensures ok ==> forall k: nat | k < 64 :: Entry(ram, 0x3f, k) == PageEntry(true, true, false, 0x40 + k)
      ensures ok ==> forall p: nat | p < 512 :: EntryOf(ram, 0x3f, p) == PageEntry(true, true, false, p)
    {
      hide KernelTables, Owned, Entry, EntryOf;
      ok := frames.InitPhysPageBitmaps(memKib, KERNEL_IMAGE_PAGES);
      if !ok {
        return;
      }
      cr3 := KERNEL_PAGE_DIRECTORY;
      own := map[];
      BuildKernelTables();
      KernelTablesOwned(ram);
    }

    // The page table that map_virtual_page adds when the directory has none for the page.
    method AddPageTable(pd: nat, page: nat) returns (ok: bool)
      requires Valid() && Live(own, pd) && page < MEMORY_PAGES
      requires Entry(ram, pd, page / MEMORY_PE_COUNT).pagenum == 0
      modifies this`ram, this`own, frames`first, frames`ramPagesFree, frames.alloced, frames.noswap
      ensures Valid()
      ensures SameTranslations(old(ram), ram, old(own)) && OnlyTablesAdded(old(own), own, pd)
      ensures ok <==> |old(frames.Free())| >= 1
      ensures !ok ==> own == old(own) && ram == old(ram) && frames.Free() == {}
      ensures ok ==>
        && frames.Free() <= old(frames.Free()) && |frames.Free()| == |old(frames.Free())| - 1
        && forall k: nat | k < MEMORY_PE_COUNT ::
             Entry(ram, pd, k).pagenum != 0 <==> k == page / MEMORY_PE_COUNT || Entry(old(ram), pd, k).pagenum != 0
      ensures forall d: nat :: Live(own, d) <==> Live(old(own), d)
    {
      hide Owned, Accounted;
      var pde := page / MEMORY_PE_COUNT;
      ghost var free := frames.Free();
      var frame := frames.AllocPhysPage(true);
      if free != {} {
        AccountedAlloc(own, free, frames.ramPages, frame, Table(pd, pde));
      }
      if frame == 0 {
        return false;
      }
      var e := if pde < KMEM_PDE_END then KernelPe(frame) else UserPe(frame);
      NewTable(ram, own, pd, page, e);
      ram := Overwrite(ram, frame, NULL_TABLE);
      ram := Put(ram, pd, pde, e);
      own := own[frame := Table(pd, pde)];
      return true;
    }

    // The second half of map_virtual_page: a frame for the page itself.
    method AddPage(pd: nat, page: nat, pin: bool, user: bool) returns (ok: bool)
      requires Valid() && Live(own, pd) && KERNEL_IMAGE_PAGES <= page < MEMORY_PAGES
      requires Entry(ram, pd, page / MEMORY_PE_COUNT).pagenum != 0
      modifies this`ram, this`own, frames`first, frames`ramPagesFree, frames.alloced, frames.noswap
      ensures Valid()
      ensures ok <==> |old(frames.Free())| >= 1
      ensures !ok ==> own == old(own) && ram == old(ram) && frames.Free() == {}
      ensures ok ==>
        && frames.Free() <= old(frames.Free()) && |frames.Free()| == |old(frames.Free())| - 1
        && ram[pd] == old(ram)[pd]
        && Lookup(ram, pd, page) in old(frames.Free())
        && Lookup(ram, pd, page) in own
        && own - {Lookup(ram, pd, page)} == Dropped(old(own), Lookup(old(ram), pd, page))
        && EntryOf(ram, pd, page) == NewPe(Lookup(ram, pd, page), user)
        && forall d: nat, p: nat | Live(old(own), d) && p < MEMORY_PAGES ::
             EntryOf(ram, d, p) == if SameSlot(pd, page, d, p) then EntryOf(ram, pd, page) else EntryOf(old(ram), d, p)
      ensures forall d: nat :: Live(own, d) <==> Live(old(own), d)
    {
      hide Owned, Accounted, Dropped;
      TableOf(ram, own, pd, page);
      var pte := page % MEMORY_PE_COUNT;
      var pt := Entry(ram, pd, page / MEMORY_PE_COUNT).pagenum;
      ghost var free, mid := frames.Free(), Dropped(own, Lookup(ram, pd, page));
      if Lookup(ram, pd, page) != 0 {
        MappedFramesAreLeaves(ram, own, pd, page);
      }
      AccountedDropped(own, free, frames.ramPages, Lookup(ram, pd, page));
      var frame := frames.AllocPhysPage(pin);
      if free != {} {
        AccountedAlloc(own, free, frames.ramPages, frame, Leaf(pt, pte));
        AccountedAlloc(mid, free, frames.ramPages, frame, Leaf(pt, pte));
      }
      if frame == 0 {
        return false;
      }
      var e := NewPe(frame, user);
      MapLeaf(ram, own, pd, page, e);
      ram := Put(ram, pt, pte, e);
      own := mid[frame := Leaf(pt, pte)];
      WithoutNew(mid, frame, Leaf(pt, pte));
      return true;
    }

    lemma PageUsable(pd: nat, page: nat)
      requires Valid() && Live(own, pd) && page < MEMORY_PAGES && Lookup(ram, pd, page) in own
      ensures var t := Entry(ram, pd, page / MEMORY_PE_COUNT);
        t.present && t.write && (t.user <==> 64 * 1024 <= page)
    {
      assert Lookup(ram, pd, page) != 0;
      hide Owned;
      DirectoryUsable(ram, own, pd, page);
    }

    // map_virtual_page.  A page that is mapped already loses its old frame.
    method MapVirtualPage(pd: nat, page: nat, pin: bool, user: bool) returns (code: int)
      requires Valid() && Live(own, pd) && KERNEL_IMAGE_PAGES <= page < MEMORY_PAGES
      modifies this`ram, this`own, frames`first, frames`ramPagesFree, frames.alloced, frames.noswap
      ensures Valid()
      ensures code == 0 || code == -1 || code == -2
      ensures code == 0 <==> |old(frames.Free())| >= PageCost(old(ram), pd, page)
      ensures code != 0 ==>
        SameTranslations(old(ram), ram, old(own)) && OnlyTablesAdded(old(own), own, pd) && frames.Free() == {}
      ensures code == 0 ==>
        && frames.Free() <= old(frames.Free())
        && |frames.Free()| == |old(frames.Free())| - PageCost(old(ram), pd, page)
        && (forall k: nat | k < MEMORY_PE_COUNT ::
             Entry(ram, pd, k).pagenum != 0 <==> k == page / MEMORY_PE_COUNT || Entry(old(ram), pd, k).pagenum != 0)
        && Lookup(ram, pd, page) in old(frames.Free())
        && Lookup(ram, pd, page) in own
        && OnlyTablesAdded(Dropped(old(own), Lookup(old(ram), pd, page)), own - {Lookup(ram, pd, page)}, pd)
        && EntryOf(ram, pd, page) == NewPe(Lookup(ram, pd, page), user)
        && forall d: nat, p: nat | Live(old(own), d) && p < MEMORY_PAGES ::
             EntryOf(ram, d, p) ==
               if p == page && (d == pd || page < 0x1_0000) then EntryOf(ram, pd, page) else EntryOf(old(ram), d, p)
      // Both levels can be read and written; by programs, the page if it was mapped for them, and
      // the table if it is not one of the kernel's.
      ensures code == 0 ==>
        var e, t := EntryOf(ram, pd, page), Entry(ram, pd, page / MEMORY_PE_COUNT);
        && e.present && e.write && (e.user <==> user)
        && t.present && t.write && (t.user <==> 64 * 1024 <= page)
      ensures forall d: nat :: Live(own, d) <==> Live(old(own), d)
    {
      hide Valid;
      if Entry(ram, pd, page / MEMORY_PE_COUNT).pagenum == 0 {
        var ok := AddPageTable(pd, page);
        if !ok {
          return -1;
        }
      }
      var ok := AddPage(pd, page, pin, user);
      if !ok {
        return -2;
      }
      PageUsable(pd, page);
      return 0;
    }

    // unmap_virtual_page; false is its panic over a page that is not mapped.
    method UnmapVirtualPage(pd: nat, page: nat) returns (ok: bool)
      requires Valid() && Live(own, pd) && KERNEL_IMAGE_PAGES <= page < MEMORY_PAGES
      modifies this`ram, this`own, frames`first, frames`ramPagesFree, frames.alloced
      ensures Valid()
      ensures ok <==> Lookup(old(ram), pd, page) != 0
      ensures !ok ==> ram == old(ram) && own == old(own) && frames.Free() == old(frames.Free())
      ensures ok ==>
        var f := Lookup(old(ram), pd, page);
        && f in old(own) && own == old(own) - {f}
        && frames.Free() == old(frames.Free()) + {f}
        && forall d: nat, p: nat | Live(own, d) && p < MEMORY_PAGES ::
             EntryOf(ram, d, p) == if SameSlot(pd, page, d, p) then NULL_PE else EntryOf(old(ram), d, p)
      ensures forall d: nat :: Live(own, d) <==> Live(old(own), d)
    {
      hide Owned, Accounted;
      var pde, pte := page / MEMORY_PE_COUNT, page % MEMORY_PE_COUNT;
      if Entry(ram, pd, pde).pagenum == 0 {
        return false;
      }
      TableOf(ram, own, pd, page);
      var pt := Entry(ram, pd, pde).pagenum;
      if Entry(ram, pt, pte).pagenum == 0 {
        return false;
      }
      UnmapLeaf(ram, own, pd, page);
      var frame := Entry(ram, pt, pte).pagenum;
      AccountedFree(own, frames.Free(), frames.ramPages, frame);
      frames.FreePhysPage(frame);
      ram := Put(ram, pt, pte, NULL_PE);
      own := own - {frame};
      return true;
    }

    // find_free_virtual_pages: first fit.  0 says that no run of the region is long enough or,
    // for the kernel, that RAM could not back it.
    method FindFreeVirtualPages(pd0: nat, count: nat, user: bool) returns (start: nat)
      requires Valid() && Live(own, pd0)
      ensures var pd := if user then pd0 else cr3;
        && (start != 0 ==> FirstFit(ram, pd, user, count, start))
        && (start == 0 <==>
            (!user && count >= frames.ramPages - frames.kernelRamPages) || NoFit(ram, pd, user, count))
        && (start != 0 ==>
            var n := if count == 0 then 1 else count;
            && (if user then 0x2_0000 <= start && start + n <= 0x10_0000 else 0x400 <= start && start + n <= 0x1_0000)
            && forall p: nat | start <= p < start + n :: EntryOf(ram, pd, p).pagenum == 0)
    {
      hide Owned, Accounted, Searched, RunFree, Fits, EntryOf;
      var pd := pd0;
      var pdeBegin: nat, pdeEnd: nat;
      if user {
        pdeBegin, pdeEnd := USER_PDE_BEG, USER_PDE_END;
      } else {
        pdeBegin, pdeEnd := KMEM_PDE_BEG, KMEM_PDE_END;
        if count >= frames.ramPages - frames.kernelRamPages {
          return 0;
        }
        pd := cr3;
      }
      var foundBegin: nat, foundEnd: nat := 0, 0;
      var pde: nat := pdeBegin;
      StartOfSearch(ram, pd, RegionBegin(user), Need(count));
      while pde < pdeEnd
        invariant pdeBegin <= pde <= pdeEnd
        invariant Searched(ram, pd, RegionBegin(user), foundBegin, pde * MEMORY_PE_COUNT, Need(count))
      {
        if Entry(ram, pd, pde).pagenum == 0 {
          AbsentTable(ram, pd, pde);
          Extend(ram, pd, user, foundBegin, pde * MEMORY_PE_COUNT, MEMORY_PE_COUNT, count);
          if foundBegin == 0 {
            foundBegin := pde * MEMORY_PE_COUNT;
          }
          foundEnd := (pde + 1) * MEMORY_PE_COUNT;
          if foundEnd - foundBegin >= count {
            FitsPlainly(ram, pd, user, count, foundBegin);
            return foundBegin;
          }
        } else {
          TableOf(ram, own, pd, pde * MEMORY_PE_COUNT);
          var pt := Entry(ram, pd, pde).pagenum;
          var pte: nat := 0;
          while pte < MEMORY_PE_COUNT
            invariant pte <= MEMORY_PE_COUNT
            invariant Searched(ram, pd, RegionBegin(user), foundBegin, pde * MEMORY_PE_COUNT + pte, Need(count))
          {
            PageOf(ram, pd, pde, pte);
            if Entry(ram, pt, pte).pagenum != 0 {
              SkipMapped(ram, pd, RegionBegin(user), foundBegin, pde * MEMORY_PE_COUNT + pte, Need(count));
              foundBegin, foundEnd := 0, 0;
            } else {
              Extend(ram, pd, user, foundBegin, pde * MEMORY_PE_COUNT + pte, 1, count);
              if foundBegin == 0 {
                foundBegin := pde * MEMORY_PE_COUNT + pte;
              }
              foundEnd := pde * MEMORY_PE_COUNT + pte + 1;
              if foundEnd - foundBegin >= count {
                FitsPlainly(ram, pd, user, count, foundBegin);
                return foundBegin;
              }
            }
            pte := pte + 1;
          }
        }
        pde := pde + 1;
      }
      Exhausted(ram, pd, user, foundBegin, count);
      return 0;
    }

    // The error exit of alloc_virtual_pages: unmap the pages mapped so far.
    method FreePagesOnError(pd: nat, first: nat, end: nat, count: nat, user: bool,
                            ghost ram0: Ram, ghost own0: map<nat, Owner>, ghost free0: set<nat>)
      requires Valid() && Live(own, pd) && first <= end <= MEMORY_PAGES && end <= first + count
      requires Owned(ram0, own0) && Live(own0, pd) && FirstFit(ram0, pd, user, count, first)
      requires forall f | f in free0 :: f !in own0 && f != 0
      requires Mapped(ram0, own0, free0, ram, own, pd, first, end, user)
      modifies this`ram, this`own, frames`first, frames`ramPagesFree, frames.alloced
      ensures Valid()
      ensures Mapped(ram0, own0, free0, ram, own, pd, first, first, user)
    {
      hide Owned, Accounted, Mapped, RunFree, Fits;
      var page := end;
      while page > first
        invariant Valid() && Live(own, pd) && first <= page <= end
        invariant Mapped(ram0, own0, free0, ram, own, pd, first, page, user)
      {
        page := page - 1;
        LastIsMapped(ram0, own0, free0, ram, own, pd, first, page, count, user);
        ghost var ramMid, ownMid := ram, own;
        var ok := UnmapVirtualPage(pd, page);
        UnmapLast(ram0, own0, free0, ramMid, ownMid, ram, own, pd, first, page, count, user);
      }
    }

    // The loop of alloc_virtual_pages, for the first fit.
    method MapRun(pd: nat, count: nat, user: bool, first: nat) returns (ok: bool)
      requires Valid() && Live(own, pd) && FirstFit(ram, pd, user, count, first) && first + count <= MEMORY_PAGES
      modifies this`ram, this`own, frames`first, frames`ramPagesFree, frames.alloced, frames.noswap
      ensures Valid()
      ensures forall d: nat :: Live(own, d) <==> Live(old(own), d)
      ensures ok <==> RunCost(old(ram), pd, first, first + count) <= |old(frames.Free())|
      ensures ok ==>
        && frames.Free() <= old(frames.Free())
        && |frames.Free()| == |old(frames.Free())| - RunCost(old(ram), pd, first, first + count)
        && Mapped(old(ram), old(own), old(frames.Free()), ram, own, pd, first, first + count, user)
      ensures !ok ==> SameTranslations(old(ram), ram, old(own)) && OnlyTablesAdded(old(own), own, pd)
    {
      hide Owned, Accounted, RunFree, Mapped, TablesUpTo, RunCost, PageCost, Lookup, FirstFit, NoFit;
      ghost var ram0, own0, free0 := ram, own, frames.Free();
      var page := first;
      NothingMapped(ram, own, free0, pd, first, user);
      while page < first + count
        invariant Valid() && cr3 == old(cr3) && Live(own, pd) && frames.ramPages == old(frames.ramPages)
        invariant first <= page <= first + count
        invariant frames.Free() <= free0
        invariant Mapped(ram0, own0, free0, ram, own, pd, first, page, user)
        invariant TablesUpTo(ram0, ram, pd, first, page)
        invariant |frames.Free()| == |free0| - RunCost(ram0, pd, first, page)
      {
        ghost var ramMid, ownMid, free := ram, own, frames.Free();
        UnmappedYet(ram0, own0, free0, ram, own, pd, first, page, count, user);
        NextCost(ram0, ram, pd, first, page);
        var code := MapVirtualPage(pd, page, false, user);
        if code != 0 {
          MapFailed(ram0, own0, free0, ramMid, ownMid, ram, own, pd, first, page, user);
          RunCostGrows(ram0, pd, first, page + 1, first + count);
          FreshFrames(own0, free0, frames.ramPages);
          FreePagesOnError(pd, first, page, count, user, ram0, own0, free0);
          BackToStart(ram0, own0, free0, ram, own, pd, first, user);
          SameLive(ram0, own0, free0, ram, own, pd, first, first, user);
          return false;
        }
        MapNext(ram0, own0, free0, ramMid, ownMid, free, ram, own, pd, first, page, user);
        NextTables(ram0, ramMid, ram, pd, first, page);
        page := page + 1;
      }
      SameLive(ram0, own0, free0, ram, own, pd, first, page, user);
      return true;
    }

    // alloc_virtual_pages: all or nothing.
    method AllocVirtualPages(pd0: nat, count: nat, user: bool) returns (first: nat)
      requires Valid() && (pd0 == 0 || Live(own, pd0))
      modifies this`ram, this`own, frames`first, frames`ramPagesFree, frames.alloced, frames.noswap
      ensures Valid()
      ensures forall d: nat :: Live(own, d) <==> Live(old(own), d)
      ensures var pd := if !user || pd0 == 0 then cr3 else pd0;
        && (first != 0 ==>
            && FirstFit(old(ram), pd, user, count, first) && first + count <= MEMORY_PAGES
            && frames.Free() <= old(frames.Free())
            && |frames.Free()| == |old(frames.Free())| - RunCost(old(ram), pd, first, first + count)
            && Mapped(old(ram), old(own), old(frames.Free()), ram, own, pd, first, first + count, user))
        && (first != 0 ==>
            && (if user then 0x2_0000 <= first && first + count <= 0x10_0000
                else 0x400 <= first && first + count <= 0x1_0000)
            && forall p: nat | first <= p < first + count ::
                 var e, t := EntryOf(ram, pd, p), Entry(ram, pd, p / MEMORY_PE_COUNT);
                 && EntryOf(old(ram), pd, p).pagenum == 0 && e.pagenum in old(frames.Free())
                 && e.present && e.write && (e.user <==> user)
                 && t.present && t.write && (t.user <==> user))
        && (first != 0 ==>
            && (forall p: nat, q: nat | first <= p < q < first + count ::
                 EntryOf(ram, pd, p).pagenum != EntryOf(ram, pd, q).pagenum)
            && forall d: nat, p: nat | Live(old(own), d) && p < 0x10_0000 ::
                 || (first <= p < first + count && (d == pd || !user))
                 || EntryOf(ram, d, p) == EntryOf(old(ram), d, p))
        && (first == 0 ==> SameTranslations(old(ram), ram, old(own)) && OnlyTablesAdded(old(own), own, pd))
        && (first == 0 <==>
            AllocFails(old(ram), pd, user, count, |old(frames.Free())|, frames.ramPages - KERNEL_IMAGE_PAGES))
    {
      hide Owned, Accounted, RunFree, Mapped, TablesUpTo, RunCost, PageCost, Lookup, FirstFit, NoFit, EntryOf;
      hide AllocFails;
      var pd := if !user || pd0 == 0 then cr3 else pd0;
      first := FindFreeVirtualPages(pd, count, user);
      if first == 0 {
        NoRun(ram, pd, user, count, |frames.Free()|, frames.ramPages - KERNEL_IMAGE_PAGES);
        return;
      }
      ghost var ram0, own0, free0 := ram, own, frames.Free();
      FitInRange(ram, pd, user, count, first);
      FitSucceeds(ram, pd, user, count, first, |free0|, frames.ramPages - KERNEL_IMAGE_PAGES);
      FreshFrames(own0, free0, frames.ramPages);
      var ok := MapRun(pd, count, user, first);
      if !ok {
        return 0;
      }
      RunAlone(ram0, own0, free0, ram, own, pd, first, count, user);
      forall p: nat | first <= p < first + count
        ensures var e, t := EntryOf(ram, pd, p), Entry(ram, pd, p / MEMORY_PE_COUNT);
          && e.present && e.write && (e.user <==> user) && e.pagenum in free0
          && t.present && t.write && (t.user <==> user)
      {
        RunUsable(ram0, own0, free0, ram, own, pd, first, count, user, p);
      }
    }

    // build_new_pagedir(0): a directory with the kernel's page tables and nothing else.
    method BuildNewPagedir() returns (pd: nat)
      requires Valid()
      modifies this`ram, this`own, frames`first, frames`ramPagesFree, frames.alloced, frames.noswap
      ensures Valid()
      ensures pd == 0 <==> old(frames.Free()) == {}
      ensures pd == 0 ==> ram == old(ram) && own == old(own) && frames.Free() == {}
      ensures pd != 0 ==>
        && pd in old(frames.Free()) && frames.Free() == old(frames.Free()) - {pd}
        && pd !in old(own) && own == old(own)[pd := Directory] && Live(own, pd)
        && (forall d: nat, p: nat | Live(old(own), d) && p < MEMORY_PAGES ::
             EntryOf(ram, d, p) == EntryOf(old(ram), d, p))
        && forall p: nat | p < MEMORY_PAGES ::
             EntryOf(ram, pd, p) == if p < KMEM_PAGES_END then EntryOf(old(ram), KERNEL_PAGE_DIRECTORY, p) else NULL_PE
      ensures pd != 0 ==> pd < MEMORY_PAGES && forall k: nat | k < 1024 ::
        Entry(ram, pd, k) == if k < 64 then Entry(old(ram), 0x3f, k) else PageEntry(false, false, false, 0)
    {
      hide Owned, Accounted;
      ghost var free := frames.Free();
      pd := frames.AllocPhysPage(true);
      if free != {} {
        AccountedAlloc(own, free, frames.ramPages, pd, Directory);
      }
      if pd == 0 {
        return;
      }
      var content := ram[KERNEL_PAGE_DIRECTORY][..KMEM_PDE_END] + NULL_TABLE[KMEM_PDE_END..];
      NewDirectory(ram, own, pd, content);
      ram := Overwrite(ram, pd, content);
      own := own[pd := Directory];
    }

    method FreeEmptyDirectory(pd: nat, ghost ram0: Ram, ghost own0: map<nat, Owner>, ghost free0: set<nat>,
                              ghost gone: set<nat>)
      requires Valid() && Live(own, pd) && pd != cr3 && Owned(ram0, own0)
      requires forall k: nat | KMEM_PDE_END <= k < MEMORY_PE_COUNT :: Entry(ram, pd, k).pagenum == 0
      requires Releasing(ram0, own0, ram, own, gone, pd) && frames.Free() == free0 + gone
      modifies this`own, frames`first, frames`ramPagesFree, frames.alloced
      ensures Valid()
      ensures own == own0 - Territory(own0, pd) && frames.Free() == free0 + Territory(own0, pd)
      ensures forall d: nat, p: nat | Live(own, d) && p < MEMORY_PAGES :: EntryOf(ram, d, p) == EntryOf(ram0, d, p)
    {
      hide Owned, Accounted, Releasing, Territory, EntryOf;
      ReleaseRest(ram0, own0, ram, own, gone, pd);
      AccountedFree(own, frames.Free(), frames.ramPages, pd);
      frames.FreePhysPage(pd);
      own := own - {pd};
    }

    method FreeEmptyTable(pd: nat, i: nat, ghost ram0: Ram, ghost own0: map<nat, Owner>, ghost free0: set<nat>,
                          ghost gone0: set<nat>)
      returns (ghost gone: set<nat>)
      requires Valid() && Live(own, pd) && pd != cr3 && KMEM_PDE_END <= i < MEMORY_PE_COUNT
      requires 0 < Entry(ram, pd, i).pagenum < MEMORY_PAGES
      requires forall j: nat | j < MEMORY_PE_COUNT :: Entry(ram, Entry(ram, pd, i).pagenum, j).pagenum == 0
      requires Releasing(ram0, own0, ram, own, gone0, pd) && frames.Free() == free0 + gone0
      modifies this`ram, this`own, frames`first, frames`ramPagesFree, frames.alloced
      ensures Valid() && Live(own, pd) && Releasing(ram0, own0, ram, own, gone, pd) && frames.Free() == free0 + gone
      ensures ram == Put(old(ram), pd, i, NULL_PE)
    {
      hide Owned, Accounted, Releasing, Territory, EntryOf;
      var t := Entry(ram, pd, i).pagenum;
      ReleaseTable(ram0, own0, ram, own, gone0, pd, i);
      AccountedFree(own, frames.Free(), frames.ramPages, t);
      frames.FreePhysPage(t);
      ram := Put(ram, pd, i, NULL_PE);
      own := own - {t};
      gone := gone0 + {t};
    }

    method FreeLeaf(pd: nat, t: nat, i: nat, j: nat,
                    ghost ram0: Ram, ghost own0: map<nat, Owner>, ghost free0: set<nat>, ghost gone0: set<nat>)
      returns (ghost gone: set<nat>)
      requires Valid() && Live(own, pd) && KMEM_PDE_END <= i < MEMORY_PE_COUNT && j < MEMORY_PE_COUNT
      requires Entry(ram, pd, i).pagenum == t && 0 < t < MEMORY_PAGES && Entry(ram, t, j).pagenum != 0
      requires Releasing(ram0, own0, ram, own, gone0, pd) && frames.Free() == free0 + gone0
      modifies this`ram, this`own, frames`first, frames`ramPagesFree, frames.alloced
      ensures Valid() && Live(own, pd) && Releasing(ram0, own0, ram, own, gone, pd) && frames.Free() == free0 + gone
      ensures t != pd && ram == Put(old(ram), t, j, NULL_PE)
    {
      hide Owned, Accounted, Releasing, Territory, EntryOf;
      ReleaseLeaf(ram0, own0, ram, own, gone0, pd, t, i, j);
      var f := Entry(ram, t, j).pagenum;
      AccountedFree(own, frames.Free(), frames.ramPages, f);
      frames.FreePhysPage(f);
      ram := Put(ram, t, j, NULL_PE);
      own := own - {f};
      gone := gone0 + {f};
    }

    // One round of free_pagedir: the pages of one page table, then the table.
    method FreeTable(pd: nat, i: nat, ghost ram0: Ram, ghost own0: map<nat, Owner>, ghost free0: set<nat>,
                     ghost gone0: set<nat>)
      returns (ghost gone: set<nat>)
      requires Valid() && Live(own, pd) && pd != cr3 && KMEM_PDE_END <= i < MEMORY_PE_COUNT
      requires Entry(ram, pd, i).pagenum != 0
      requires Releasing(ram0, own0, ram, own, gone0, pd) && frames.Free() == free0 + gone0
      modifies this`ram, this`own, frames`first, frames`ramPagesFree, frames.alloced
      ensures Valid() && Live(own, pd) && Releasing(ram0, own0, ram, own, gone, pd) && frames.Free() == free0 + gone
      ensures forall k: nat | k < MEMORY_PE_COUNT ::
        Entry(ram, pd, k) == if k == i then NULL_PE else Entry(old(ram), pd, k)
    {
      hide Owned, Accounted, Releasing, Territory, EntryOf;
      gone := gone0;
      TableOf(ram, own, pd, i * MEMORY_PE_COUNT);
      var t := Entry(ram, pd, i).pagenum;
      var j: nat := 0;
      while j < MEMORY_PE_COUNT
        invariant j <= MEMORY_PE_COUNT
        invariant Valid() && Live(own, pd) && Releasing(ram0, own0, ram, own, gone, pd) && frames.Free() == free0 + gone
        invariant forall k: nat | k < MEMORY_PE_COUNT :: Entry(ram, pd, k) == Entry(old(ram), pd, k)
        invariant forall k: nat | k < j :: Entry(ram, t, k).pagenum == 0
      {
        if Entry(ram, t, j).pagenum != 0 {
          gone := FreeLeaf(pd, t, i, j, ram0, own0, free0, gone);
        }
        j := j + 1;
      }
      gone := FreeEmptyTable(pd, i, ram0, own0, free0, gone);
    }

    // free_pagedir; false is its panic over the kernel's or the active directory.
    method FreePagedir(pd: nat) returns (ok: bool)
      requires Valid() && Live(own, pd)
      modifies this`ram, this`own, frames`first, frames`ramPagesFree, frames.alloced
      ensures Valid()
      ensures ok <==> pd != KERNEL_PAGE_DIRECTORY && pd != cr3
      ensures !ok ==> ram == old(ram) && own == old(own) && frames.Free() == old(frames.Free())
      ensures ok ==>
        && own == old(own) - Territory(old(own), pd)
        && frames.Free() == old(frames.Free()) + Territory(old(own), pd)
        && forall d: nat, p: nat | Live(own, d) && p < MEMORY_PAGES :: EntryOf(ram, d, p) == EntryOf(old(ram), d, p)
    {
      hide Owned, Accounted, Releasing, Territory, EntryOf;
      if pd == KERNEL_PAGE_DIRECTORY || pd == cr3 {
        return false;
      }
      ghost var own0, ram0, free0, gone := own, ram, frames.Free(), {};
      StartRelease(ram, own, pd);
      var i: nat := KMEM_PDE_END;
      while i < MEMORY_PE_COUNT
        invariant KMEM_PDE_END <= i <= MEMORY_PE_COUNT
        invariant Valid() && Live(own, pd) && Releasing(ram0, own0, ram, own, gone, pd) && frames.Free() == free0 + gone
        invariant forall k: nat | KMEM_PDE_END <= k < i :: Entry(ram, pd, k).pagenum == 0
      {
        if Entry(ram, pd, i).pagenum != 0 {
          gone := FreeTable(pd, i, ram0, own0, free0, gone);
        }
        i := i + 1;
      }
      FreeEmptyDirectory(pd, ram0, own0, free0, gone);
      return true;
    }

    // A task switch to another directory.
    method SwitchTo(pd: nat)
      requires Valid() && Live(own, pd)
      modifies this`cr3
      ensures Valid() && cr3 == pd
    {
      cr3 := pd;
    }

    // A running program overwrites a page that is mapped for it.
    method Store(pd: nat, page: nat, content: seq<PageEntry>)
      requires Valid() && Live(own, pd) && KERNEL_IMAGE_PAGES <= page < MEMORY_PAGES && Lookup(ram, pd, page) != 0
      requires |content| == MEMORY_PE_COUNT
      modifies this`ram
      ensures Valid() && SameTranslations(old(ram), ram, own)
      ensures Lookup(old(ram), pd, page) < MEMORY_PAGES
      ensures ram == Overwrite(old(ram), Lookup(old(ram), pd, page), content)
    {
      MappedFramesAreLeaves(ram, own, pd, page);
      var frame := Lookup(ram, pd, page);
      StoreLeaf(ram, own, frame, content);
      forall d: nat, p: nat | Live(own, d) && p < MEMORY_PAGES
        ensures EntryOf(Overwrite(ram, frame, content), d, p) == EntryOf(ram, d, p)
      {
        StoreKeepsTranslations(ram, own, frame, content, d, p);
      }
      ram := Overwrite(ram, frame, content);
    }
  }
}
