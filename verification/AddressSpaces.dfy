// What a directory translates, and how the steps of PageTables change that.

module AddressSpaces {
  import opened PhysicalFrames
  import opened PageTables

  const KMEM_PAGES_END := MEMORY_PE_COUNT * KMEM_PDE_END

  // The entry behind a virtual page of a directory, null when there is no page table for it.
  function EntryOf(ram: Ram, d: nat, page: nat): PageEntry
    requires d < MEMORY_PAGES && page < MEMORY_PAGES
  {
    var t := Entry(ram, d, page / MEMORY_PE_COUNT).pagenum;
    if t == 0 || t >= MEMORY_PAGES then NULL_PE else Entry(ram, t, page % MEMORY_PE_COUNT)
  }

  // The frame a virtual page leads to; 0 when it is not mapped.
  function Lookup(ram: Ram, d: nat, page: nat): nat
    requires d < MEMORY_PAGES && page < MEMORY_PAGES
  {
    EntryOf(ram, d, page).pagenum
  }

  // Kernel pages are one and the same in every directory.
  predicate SameSlot(d1: nat, p1: nat, d2: nat, p2: nat) {
    p1 == p2 && (d1 == d2 || p1 < KMEM_PAGES_END)
  }

  ghost predicate Live(own: map<nat, Owner>, d: nat) {
    d < MEMORY_PAGES && IsDirectory(own, d)
  }

  // The table behind a page, in terms of ownership.
  lemma TableOf(ram: Ram, own: map<nat, Owner>, d: nat, page: nat)
    requires Owned(ram, own) && Live(own, d) && page < MEMORY_PAGES
    ensures Entry(ram, d, page / MEMORY_PE_COUNT).pagenum != 0 ==>
      && var t := Entry(ram, d, page / MEMORY_PE_COUNT).pagenum;
      && t < MEMORY_PAGES && IsTable(own, t)
      && (page < KMEM_PAGES_END ==> t == KERNEL_PAGE_TABLES + page / MEMORY_PE_COUNT)
      && (page >= KMEM_PAGES_END ==> t in own && own[t] == Table(d, page / MEMORY_PE_COUNT))
    ensures page < KMEM_PAGES_END ==> Entry(ram, d, page / MEMORY_PE_COUNT).pagenum != 0
  {
    assert Entry(ram, d, page / MEMORY_PE_COUNT).pagenum >= 0;
  }

  lemma UnmappedIsNull(ram: Ram, own: map<nat, Owner>, d: nat, page: nat)
    requires Owned(ram, own) && Live(own, d) && KERNEL_IMAGE_PAGES <= page < MEMORY_PAGES && Lookup(ram, d, page) == 0
    ensures EntryOf(ram, d, page) == NULL_PE
  {
    TableOf(ram, own, d, page);
  }

  // The processor's way from a 32-bit address to the entry of its page: ten bits for the table, ten
  // for the page.
  lemma Walk(ram: Ram, d: nat, address: nat)
    requires d < MEMORY_PAGES && address < 0x1_0000_0000
    requires 0 < Entry(ram, d, address / 0x40_0000).pagenum < MEMORY_PAGES
    ensures EntryOf(ram, d, address / 0x1000) ==
      Entry(ram, Entry(ram, d, address / 0x40_0000).pagenum, address / 0x1000 % 0x400)
  {
    assert address / 0x1000 / 0x400 == address / 0x40_0000;
  }

  // What lies behind a page that leads somewhere can be reached at the level of the directory.
  lemma DirectoryUsable(ram: Ram, own: map<nat, Owner>, d: nat, page: nat)
    requires Owned(ram, own) && Live(own, d) && page < MEMORY_PAGES && Lookup(ram, d, page) != 0
    ensures var t := Entry(ram, d, page / MEMORY_PE_COUNT);
      t.present && t.write && (t.user <==> KMEM_PAGES_END <= page)
  {
    assert Entry(ram, d, page / MEMORY_PE_COUNT).pagenum != 0;
  }

  // Pages outside the kernel image lead to frames that belong to them alone: a frame is behind
  // one page of one directory, or one kernel page of all of them.
  lemma Isolation(ram: Ram, own: map<nat, Owner>, d1: nat, p1: nat, d2: nat, p2: nat)
    requires Owned(ram, own) && Live(own, d1) && Live(own, d2)
    requires KERNEL_IMAGE_PAGES <= p1 < MEMORY_PAGES && KERNEL_IMAGE_PAGES <= p2 < MEMORY_PAGES
    requires Lookup(ram, d1, p1) != 0 && Lookup(ram, d1, p1) == Lookup(ram, d2, p2)
    ensures p1 == p2 && (d1 == d2 || p1 < 0x1_0000)
  {
    TableOf(ram, own, d1, p1);
    TableOf(ram, own, d2, p2);
    var t1, t2 := Entry(ram, d1, p1 / MEMORY_PE_COUNT).pagenum, Entry(ram, d2, p2 / MEMORY_PE_COUNT).pagenum;
    var f := Lookup(ram, d1, p1);
    assert own[f] == Leaf(t1, p1 % MEMORY_PE_COUNT);
    assert own[f] == Leaf(t2, p2 % MEMORY_PE_COUNT);
  }

  // A program cannot reach a page table, its own or another's, through its pages.
  lemma MappedFramesAreLeaves(ram: Ram, own: map<nat, Owner>, d: nat, page: nat)
    requires Owned(ram, own) && Live(own, d) && KERNEL_IMAGE_PAGES <= page < MEMORY_PAGES
    requires Lookup(ram, d, page) != 0
    ensures Lookup(ram, d, page) in own
    ensures own[Lookup(ram, d, page)] == Leaf(Entry(ram, d, page / MEMORY_PE_COUNT).pagenum, page % MEMORY_PE_COUNT)
    ensures !IsTable(own, Lookup(ram, d, page)) && !IsDirectory(own, Lookup(ram, d, page))
  {
    TableOf(ram, own, d, page);
    assert Entry(ram, Entry(ram, d, page / MEMORY_PE_COUNT).pagenum, page % MEMORY_PE_COUNT).pagenum != 0;
  }

  lemma KernelPagesShared(ram: Ram, own: map<nat, Owner>, d1: nat, d2: nat, page: nat)
    requires Owned(ram, own) && Live(own, d1) && Live(own, d2) && page < KMEM_PAGES_END
    ensures EntryOf(ram, d1, page) == EntryOf(ram, d2, page)
  {
    TableOf(ram, own, d1, page);
    TableOf(ram, own, d2, page);
  }

  // An entry the kernel counts: of a private part of a directory, or of a page table.
  predicate Slot(own: map<nat, Owner>, t: nat, i: nat) {
    LeafSlot(own, t, i) || TableSlot(own, t, i)
  }

  // The owned frames are a disjoint union: a directory is named by no entry, nor is a lost frame,
  // and every other owned frame by exactly one.
  lemma DisjointUnion(ram: Ram, own: map<nat, Owner>, f: nat)
    requires Owned(ram, own) && 0 < f
    ensures (f in own && !own[f].Directory? && !own[f].Lost?) <==>
      exists t: nat, i: nat ::
        t < MEMORY_PAGES && i < MEMORY_PE_COUNT && Slot(own, t, i) && Entry(ram, t, i).pagenum == f
    ensures forall t1: nat, i1: nat, t2: nat, i2: nat |
      && t1 < MEMORY_PAGES && i1 < MEMORY_PE_COUNT && Slot(own, t1, i1) && Entry(ram, t1, i1).pagenum == f
      && t2 < MEMORY_PAGES && i2 < MEMORY_PE_COUNT && Slot(own, t2, i2) && Entry(ram, t2, i2).pagenum == f ::
      t1 == t2 && i1 == i2
  {
    if f in own && !own[f].Directory? && !own[f].Lost? {
      match own[f]
      case Table(d, pde) => assert Slot(own, d, pde) && Entry(ram, d, pde).pagenum == f;
      case Leaf(t, i) => assert Slot(own, t, i) && Entry(ram, t, i).pagenum == f;
    }
  }

  // ---- translations after each step ----

  lemma EntryAfterLeaf(ram: Ram, own: map<nat, Owner>, d: nat, page: nat, e: PageEntry, d2: nat, p2: nat)
    requires Owned(ram, own) && Live(own, d) && Live(own, d2) && page < MEMORY_PAGES && p2 < MEMORY_PAGES
    requires 0 < Entry(ram, d, page / MEMORY_PE_COUNT).pagenum < MEMORY_PAGES
    ensures var after := Put(ram, Entry(ram, d, page / MEMORY_PE_COUNT).pagenum, page % MEMORY_PE_COUNT, e);
      EntryOf(after, d2, p2) == if SameSlot(d, page, d2, p2) then e else EntryOf(ram, d2, p2)
  {
    TableOf(ram, own, d, page);
    TableOf(ram, own, d2, p2);
  }

  lemma EntryAfterTable(ram: Ram, own: map<nat, Owner>, d: nat, pde: nat, e: PageEntry, d2: nat, p2: nat)
    requires Owned(ram, own) && Live(own, d) && TableSlot(own, d, pde) && Entry(ram, d, pde).pagenum == 0
    requires KERNEL_IMAGE_PAGES <= e.pagenum < MEMORY_PAGES && e.pagenum !in own
    requires Live(own, d2) && p2 < MEMORY_PAGES
    ensures EntryOf(Put(Overwrite(ram, e.pagenum, NULL_TABLE), d, pde, e), d2, p2) == EntryOf(ram, d2, p2)
  {
    TableOf(ram, own, d2, p2);
  }

  lemma EntryAfterDirectory(ram: Ram, own: map<nat, Owner>, f: nat, content: seq<PageEntry>, d2: nat, p2: nat)
    requires Owned(ram, own) && KERNEL_IMAGE_PAGES <= f < MEMORY_PAGES && f !in own
    requires content == ram[KERNEL_PAGE_DIRECTORY][..KMEM_PDE_END] + NULL_TABLE[KMEM_PDE_END..]
    requires p2 < MEMORY_PAGES && (d2 == f || Live(own, d2))
    ensures EntryOf(Overwrite(ram, f, content), d2, p2) ==
      if d2 != f then EntryOf(ram, d2, p2)
      else if p2 < KMEM_PAGES_END then EntryOf(ram, KERNEL_PAGE_DIRECTORY, p2)
      else NULL_PE
  {
    if d2 == f {
      if p2 < KMEM_PAGES_END {
        assert content[p2 / MEMORY_PE_COUNT] == ram[KERNEL_PAGE_DIRECTORY][p2 / MEMORY_PE_COUNT];
        TableOf(ram, own, KERNEL_PAGE_DIRECTORY, p2);
      } else {
        assert content[p2 / MEMORY_PE_COUNT] == NULL_PE;
      }
    } else {
      TableOf(ram, own, d2, p2);
    }
  }

  // Isolation of contents: whatever a program stores through its pages, no translation changes.
  lemma StoreKeepsTranslations(ram: Ram, own: map<nat, Owner>, f: nat, content: seq<PageEntry>, d: nat, page: nat)
    requires Owned(ram, own) && f in own && own[f].Leaf? && |content| == MEMORY_PE_COUNT
    requires Live(own, d) && page < MEMORY_PAGES
    ensures f < MEMORY_PAGES && EntryOf(Overwrite(ram, f, content), d, page) == EntryOf(ram, d, page)
  {
    TableOf(ram, own, d, page);
  }

  // ---- whole changes: ownership and every translation at once ----

  // map_virtual_page does not look whether the page is mapped already: when it is, its old frame
  // is named by no entry any more.
  lemma MapLeaf(ram: Ram, own: map<nat, Owner>, pd: nat, page: nat, e: PageEntry)
    requires Owned(ram, own) && Live(own, pd) && KERNEL_IMAGE_PAGES <= page < MEMORY_PAGES
    requires Entry(ram, pd, page / MEMORY_PE_COUNT).pagenum != 0
    requires KERNEL_IMAGE_PAGES <= e.pagenum < MEMORY_PAGES && e.pagenum !in own
    ensures var t := Entry(ram, pd, page / MEMORY_PE_COUNT).pagenum;
      && t < MEMORY_PAGES
      && var after := Put(ram, t, page % MEMORY_PE_COUNT, e);
      && var own' := Dropped(own, Lookup(ram, pd, page))[e.pagenum := Leaf(t, page % MEMORY_PE_COUNT)];
      && Owned(after, own')
      && (forall d: nat :: Live(own', d) <==> Live(own, d))
      && after[pd] == ram[pd]
      && forall d: nat, p: nat | Live(own, d) && p < MEMORY_PAGES ::
           EntryOf(after, d, p) == if SameSlot(pd, page, d, p) then e else EntryOf(ram, d, p)
  {
    TableOf(ram, own, pd, page);
    var t := Entry(ram, pd, page / MEMORY_PE_COUNT).pagenum;
    ReplaceLeaf(ram, own, t, page % MEMORY_PE_COUNT, e);
    if Lookup(ram, pd, page) != 0 {
      MappedFramesAreLeaves(ram, own, pd, page);
    }
    forall d: nat, p: nat | Live(own, d) && p < MEMORY_PAGES
      ensures EntryOf(Put(ram, t, page % MEMORY_PE_COUNT, e), d, p) ==
        if SameSlot(pd, page, d, p) then e else EntryOf(ram, d, p)
    {
      EntryAfterLeaf(ram, own, pd, page, e, d, p);
    }
  }

  lemma UnmapLeaf(ram: Ram, own: map<nat, Owner>, pd: nat, page: nat)
    requires Owned(ram, own) && Live(own, pd) && KERNEL_IMAGE_PAGES <= page < MEMORY_PAGES
    requires Lookup(ram, pd, page) != 0
    ensures var t, f := Entry(ram, pd, page / MEMORY_PE_COUNT).pagenum, Lookup(ram, pd, page);
      && t < MEMORY_PAGES && f in own && own[f].Leaf? && f == Entry(ram, t, page % MEMORY_PE_COUNT).pagenum
      && var after := Put(ram, t, page % MEMORY_PE_COUNT, NULL_PE);
      && Owned(after, own - {f})
      && (forall d: nat :: Live(own - {f}, d) <==> Live(own, d))
      && forall d: nat, p: nat | Live(own, d) && p < MEMORY_PAGES ::
           EntryOf(after, d, p) == if SameSlot(pd, page, d, p) then NULL_PE else EntryOf(ram, d, p)
  {
    TableOf(ram, own, pd, page);
    MappedFramesAreLeaves(ram, own, pd, page);
    var t := Entry(ram, pd, page / MEMORY_PE_COUNT).pagenum;
    RemoveLeaf(ram, own, t, page % MEMORY_PE_COUNT);
    forall d: nat, p: nat | Live(own, d) && p < MEMORY_PAGES
      ensures EntryOf(Put(ram, t, page % MEMORY_PE_COUNT, NULL_PE), d, p) ==
        if SameSlot(pd, page, d, p) then NULL_PE else EntryOf(ram, d, p)
    {
      EntryAfterLeaf(ram, own, pd, page, NULL_PE, d, p);
    }
  }

  lemma NewTable(ram: Ram, own: map<nat, Owner>, pd: nat, page: nat, e: PageEntry)
    requires Owned(ram, own) && Live(own, pd) && page < MEMORY_PAGES
    requires Entry(ram, pd, page / MEMORY_PE_COUNT).pagenum == 0
    requires KERNEL_IMAGE_PAGES <= e.pagenum < MEMORY_PAGES && e.pagenum !in own
    requires e.present && e.write && (e.user <==> KMEM_PDE_END <= page / MEMORY_PE_COUNT)
    ensures var pde := page / MEMORY_PE_COUNT;
      var after, own' := Put(Overwrite(ram, e.pagenum, NULL_TABLE), pd, pde, e), own[e.pagenum := Table(pd, pde)];
      && Owned(after, own')
      && Entry(after, pd, pde).pagenum == e.pagenum
      && (forall d: nat :: Live(own', d) <==> Live(own, d))
      && forall d: nat, p: nat | Live(own, d) && p < MEMORY_PAGES :: EntryOf(after, d, p) == EntryOf(ram, d, p)
  {
    TableOf(ram, own, pd, page);
    var pde := page / MEMORY_PE_COUNT;
    AddTable(ram, own, pd, pde, e);
    forall d: nat, p: nat | Live(own, d) && p < MEMORY_PAGES
      ensures EntryOf(Put(Overwrite(ram, e.pagenum, NULL_TABLE), pd, pde, e), d, p) == EntryOf(ram, d, p)
    {
      EntryAfterTable(ram, own, pd, pde, e, d, p);
    }
  }

  lemma NewDirectory(ram: Ram, own: map<nat, Owner>, f: nat, content: seq<PageEntry>)
    requires Owned(ram, own) && KERNEL_IMAGE_PAGES <= f < MEMORY_PAGES && f !in own
    requires content == ram[KERNEL_PAGE_DIRECTORY][..KMEM_PDE_END] + NULL_TABLE[KMEM_PDE_END..]
    ensures var after, own' := Overwrite(ram, f, content), own[f := Directory];
      && Owned(after, own')
      && (forall d: nat :: Live(own', d) <==> Live(own, d) || d == f)
      && (forall d: nat, p: nat | Live(own, d) && p < MEMORY_PAGES :: EntryOf(after, d, p) == EntryOf(ram, d, p))
      && forall p: nat | p < MEMORY_PAGES ::
           EntryOf(after, f, p) == if p < KMEM_PAGES_END then EntryOf(ram, KERNEL_PAGE_DIRECTORY, p) else NULL_PE
  {
    AddDirectory(ram, own, f, content);
    forall d: nat, p: nat | Live(own, d) && p < MEMORY_PAGES
      ensures EntryOf(Overwrite(ram, f, content), d, p) == EntryOf(ram, d, p)
    {
      EntryAfterDirectory(ram, own, f, content, d, p);
    }
    forall p: nat | p < MEMORY_PAGES
      ensures EntryOf(Overwrite(ram, f, content), f, p) ==
        if p < KMEM_PAGES_END then EntryOf(ram, KERNEL_PAGE_DIRECTORY, p) else NULL_PE
    {
      EntryAfterDirectory(ram, own, f, content, f, p);
    }
  }
}
