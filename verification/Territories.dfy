// The frames that belong to one page directory, and freeing them one at a time.

module Territories {
  import opened PhysicalFrames
  import opened PageTables
  import opened AddressSpaces

  // The directory itself, its own page tables, and what they map.
  ghost predicate Belongs(own: map<nat, Owner>, pd: nat, f: nat)
    requires f in own
  {
    || f == pd
    || (own[f].Table? && own[f].dir == pd)
    || (own[f].Leaf? && own[f].table in own && own[own[f].table].Table? && own[own[f].table].dir == pd)
  }

  ghost function Territory(own: map<nat, Owner>, pd: nat): set<nat> {
    set f | f in own && Belongs(own, pd, f)
  }

  // Part of pd's territory is gone, the directory itself not yet, and no other directory
  // translates anything differently.
  ghost predicate Releasing(ram0: Ram, own0: map<nat, Owner>, ram: Ram, own: map<nat, Owner>, gone: set<nat>, pd: nat) {
    && pd in own && own[pd] == Directory
    && own == own0 - gone
    && gone <= Territory(own0, pd)
    && forall d: nat, p: nat | Live(own0, d) && d != pd && p < MEMORY_PAGES :: EntryOf(ram, d, p) == EntryOf(ram0, d, p)
  }

  lemma StartRelease(ram: Ram, own: map<nat, Owner>, pd: nat)
    requires pd in own && own[pd] == Directory
    ensures Releasing(ram, own, ram, own, {}, pd)
  {
    assert own - {} == own;
  }

  lemma StillLive(ram0: Ram, own0: map<nat, Owner>, ram: Ram, own: map<nat, Owner>, gone: set<nat>, pd: nat)
    requires Releasing(ram0, own0, ram, own, gone, pd)
    ensures forall d: nat :: Live(own, d) <==> Live(own0, d)
  {
    forall d: nat ensures Live(own, d) <==> Live(own0, d) {
      assert d in gone ==> d in own0 && Belongs(own0, pd, d);
    }
  }

  lemma ReleaseLeaf(ram0: Ram, own0: map<nat, Owner>, ram: Ram, own: map<nat, Owner>, gone: set<nat>, pd: nat, t: nat,
                    i: nat, j: nat)
    requires Releasing(ram0, own0, ram, own, gone, pd) && Owned(ram, own) && pd < MEMORY_PAGES
    requires KMEM_PDE_END <= i < MEMORY_PE_COUNT && j < MEMORY_PE_COUNT
    requires Entry(ram, pd, i).pagenum == t && 0 < t < MEMORY_PAGES && Entry(ram, t, j).pagenum != 0
    ensures var f, after := Entry(ram, t, j).pagenum, Put(ram, t, j, NULL_PE);
      && f in own && t != pd && Owned(after, own - {f}) && (forall d: nat :: Live(own - {f}, d) <==> Live(own, d))
      && Releasing(ram0, own0, after, own - {f}, gone + {f}, pd)
  {
    var page := i * MEMORY_PE_COUNT + j;
    assert page / MEMORY_PE_COUNT == i && page % MEMORY_PE_COUNT == j;
    UnmapLeaf(ram, own, pd, page);
    TableOf(ram, own, pd, page);
    StillLive(ram0, own0, ram, own, gone, pd);
    var f := Entry(ram, t, j).pagenum;
    assert own - {f} == own0 - (gone + {f});
  }

  lemma ReleaseTable(ram0: Ram, own0: map<nat, Owner>, ram: Ram, own: map<nat, Owner>, gone: set<nat>, pd: nat, i: nat)
    requires Releasing(ram0, own0, ram, own, gone, pd) && Owned(ram, own) && pd < MEMORY_PAGES
    requires KMEM_PDE_END <= i < MEMORY_PE_COUNT
    requires 0 < Entry(ram, pd, i).pagenum < MEMORY_PAGES
    requires forall j: nat | j < MEMORY_PE_COUNT :: Entry(ram, Entry(ram, pd, i).pagenum, j).pagenum == 0
    ensures var t, after := Entry(ram, pd, i).pagenum, Put(ram, pd, i, NULL_PE);
      && t in own && Owned(after, own - {t}) && (forall d: nat :: Live(own - {t}, d) <==> Live(own, d))
      && Releasing(ram0, own0, after, own - {t}, gone + {t}, pd)
  {
    var t, after := Entry(ram, pd, i).pagenum, Put(ram, pd, i, NULL_PE);
    RemoveTable(ram, own, pd, i);
    StillLive(ram0, own0, ram, own, gone, pd);
    forall d: nat, p: nat | Live(own0, d) && d != pd && p < MEMORY_PAGES
      ensures EntryOf(after, d, p) == EntryOf(ram0, d, p)
    {
      TableOf(ram, own, d, p);
    }
    assert own - {t} == own0 - (gone + {t});
  }

  // With every private entry null, all but the directory itself has been released.
  lemma ReleaseRest(ram0: Ram, own0: map<nat, Owner>, ram: Ram, own: map<nat, Owner>, gone: set<nat>, pd: nat)
    requires Releasing(ram0, own0, ram, own, gone, pd) && Owned(ram0, own0) && Owned(ram, own) && pd < MEMORY_PAGES
    requires forall i: nat | KMEM_PDE_END <= i < MEMORY_PE_COUNT :: Entry(ram, pd, i).pagenum == 0
    ensures pd in own && gone + {pd} == Territory(own0, pd)
    ensures Owned(ram, own - {pd})
    ensures own - {pd} == own0 - Territory(own0, pd)
    ensures forall d: nat :: Live(own - {pd}, d) <==> Live(own0, d) && d != pd
    ensures forall d: nat, p: nat | Live(own - {pd}, d) && p < MEMORY_PAGES :: EntryOf(ram, d, p) == EntryOf(ram0, d, p)
  {
    RemoveDirectory(ram, own, pd);
    forall f | f in Territory(own0, pd) ensures f in gone || f == pd {
      assert f in own && own[f].Leaf? ==> IsTable(own, own[f].table);
    }
    StillLive(ram0, own0, ram, own, gone, pd);
    assert own - {pd} == own0 - Territory(own0, pd);
  }
}
