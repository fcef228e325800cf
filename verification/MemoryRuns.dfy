// Whole runs of the memory manager: start the machine, then build, fill, use and free address
// spaces in any order.  Whatever happened, the frames in use are exactly the ones the page
// directories account for, and those lost to a page mapped twice.

module MemoryRuns {
  import opened PhysicalFrames
  import opened PageTables
  import opened AddressSpaces
  import opened VirtualRuns
  import opened Territories
  import opened VirtualMemory
  import opened MemorySteps

  ghost function Now(vm: Paging, dirs: seq<nat>): State
    requires vm.frames.Shape()
    reads vm, vm.frames.alloced
  {
    State(vm.ram, vm.own, vm.cr3, vm.frames.Free(), dirs)
  }

  method Build(vm: Paging, dirs0: seq<nat>) returns (dirs: seq<nat>)
    requires vm.Valid() && ProcessTable(vm.own, dirs0)
    modifies vm`ram, vm`own, vm.frames`first, vm.frames`ramPagesFree, vm.frames.alloced, vm.frames.noswap
    ensures vm.Valid()
    ensures Step(vm.frames.ramPages, old(Now(vm, dirs0)), NewProcess, Now(vm, dirs), true)
  {
    hide Owned, Accounted, ProcessTable, EntryOf;
    ghost var s := Now(vm, dirs0);
    dirs := dirs0;
    var pd := vm.BuildNewPagedir();
    if pd != 0 {
      DirectoryBuilt(s.own, dirs, pd);
      dirs := dirs + [pd];
      assert dirs[..|dirs0|] == dirs0;
    }
  }

  method Free(vm: Paging, dirs0: seq<nat>, k: nat) returns (dirs: seq<nat>, running: bool)
    requires vm.Valid() && ProcessTable(vm.own, dirs0)
    modifies vm`ram, vm`own, vm.frames`first, vm.frames`ramPagesFree, vm.frames.alloced, vm.frames.noswap
    ensures vm.Valid()
    ensures Step(vm.frames.ramPages, old(Now(vm, dirs0)), FreeProcess(k), Now(vm, dirs), running)
  {
    ghost var s := Now(vm, dirs0);
    var pd := DirectoryOf(dirs0, k);
    assert pd == Dir(vm.frames.ramPages, s, k) && (k < |dirs0| ==> pd != KERNEL_PAGE_DIRECTORY);
    hide Owned, Accounted, ProcessTable, EntryOf, Territory;
    dirs := dirs0;
    running := vm.FreePagedir(pd);
    if running {
      DirectoryFreed(s.ram, s.own, vm.own, dirs, k);
      dirs := dirs[..k] + dirs[k + 1..];
    }
  }

  method AllocPages(vm: Paging, dirs: seq<nat>, k: nat, count: nat, user: bool)
    requires vm.Valid() && ProcessTable(vm.own, dirs)
    modifies vm`ram, vm`own, vm.frames`first, vm.frames`ramPagesFree, vm.frames.alloced, vm.frames.noswap
    ensures vm.Valid()
    ensures Step(vm.frames.ramPages, old(Now(vm, dirs)), Alloc(k, count, user), Now(vm, dirs), true)
  {
    hide Owned, Accounted, ProcessTable, EntryOf, Mapped, FirstFit, AllocFails, RunCost, SameTranslations;
    hide OnlyTablesAdded;
    ghost var s := Now(vm, dirs);
    var pd := DirectoryOf(dirs, k);
    Listed(vm.ram, vm.own, dirs, k);
    var first := vm.AllocVirtualPages(pd, count, user);
    SameDirectories(s.ram, s.own, vm.ram, vm.own, dirs);
    assert first != 0 ==> RunAllocated(s, if user then pd else s.cr3, first, count, user, Now(vm, dirs));
  }

  method MapPage(vm: Paging, dirs: seq<nat>, k: nat, page: nat, pin: bool, user: bool)
    requires vm.Valid() && ProcessTable(vm.own, dirs) && Changeable(page)
    modifies vm`ram, vm`own, vm.frames`first, vm.frames`ramPagesFree, vm.frames.alloced, vm.frames.noswap
    ensures vm.Valid()
    ensures Step(vm.frames.ramPages, old(Now(vm, dirs)), Map(k, page, pin, user), Now(vm, dirs), true)
  {
    hide Owned, Accounted, ProcessTable, PageCost, Dropped;
    ghost var s := Now(vm, dirs);
    var pd := DirectoryOf(dirs, k);
    assert pd == Dir(vm.frames.ramPages, s, k);
    var code := vm.MapVirtualPage(pd, page, pin, user);
    SameDirectories(s.ram, s.own, vm.ram, vm.own, dirs);
  }

  method UnmapPage(vm: Paging, dirs: seq<nat>, k: nat, page: nat) returns (running: bool)
    requires vm.Valid() && ProcessTable(vm.own, dirs) && Changeable(page)
    modifies vm`ram, vm`own, vm.frames`first, vm.frames`ramPagesFree, vm.frames.alloced, vm.frames.noswap
    ensures vm.Valid()
    ensures Step(vm.frames.ramPages, old(Now(vm, dirs)), Unmap(k, page), Now(vm, dirs), running)
  {
    hide Owned, Accounted, ProcessTable, EntryOf;
    ghost var s := Now(vm, dirs);
    var pd := DirectoryOf(dirs, k);
    assert pd == Dir(vm.frames.ramPages, s, k);
    running := vm.UnmapVirtualPage(pd, page);
    SameDirectories(s.ram, s.own, vm.ram, vm.own, dirs);
  }

  method WritePage(vm: Paging, dirs: seq<nat>, k: nat, page: nat, content: seq<PageEntry>)
    requires vm.Valid() && ProcessTable(vm.own, dirs)
    modifies vm`ram
    ensures vm.Valid()
    ensures Step(vm.frames.ramPages, old(Now(vm, dirs)), Write(k, page, content), Now(vm, dirs), true)
  {
    hide Owned, Accounted, ProcessTable, EntryOf;
    ghost var s := Now(vm, dirs);
    var pd := DirectoryOf(dirs, k);
    assert pd == Dir(vm.frames.ramPages, s, k);
    if Changeable(page) && |content| == MEMORY_PE_COUNT && 0 < Lookup(vm.ram, pd, page) < MEMORY_PAGES {
      vm.Store(pd, page, content);
    }
  }

  // One call into the memory manager; the kernel stops running when the call panics.
  method Execute(vm: Paging, dirs0: seq<nat>, op: Op) returns (dirs: seq<nat>, running: bool)
    requires vm.Valid() && ProcessTable(vm.own, dirs0)
    modifies vm`ram, vm`own, vm`cr3, vm.frames`first, vm.frames`ramPagesFree, vm.frames.alloced, vm.frames.noswap
    ensures vm.Valid() && ProcessTable(vm.own, dirs)
    ensures Step(vm.frames.ramPages, old(Now(vm, dirs0)), op, Now(vm, dirs), running)
  {
    hide Owned, Accounted, ProcessTable, Built, Freed, Allocated, PageMapped, PageUnmapped, Writes;
    dirs, running := dirs0, true;
    match op {
      case NewProcess => dirs := Build(vm, dirs);
      case FreeProcess(k) => dirs, running := Free(vm, dirs, k);
      case Switch(k) =>
        assert DirectoryOf(dirs, k) == Dir(vm.frames.ramPages, Now(vm, dirs), k);
        vm.SwitchTo(DirectoryOf(dirs, k));
      case Alloc(k, count, user) => AllocPages(vm, dirs, k, count, user);
      case Map(k, page, pin, user) =>
        if Changeable(page) {
          MapPage(vm, dirs, k, page, pin, user);
        }
      case Unmap(k, page) =>
        if Changeable(page) {
          running := UnmapPage(vm, dirs, k, page);
        }
      case Write(k, page, content) => WritePage(vm, dirs, k, page, content);
    }
  }

  method Run(memKib: nat, contents: Ram, ops: seq<Op>)
    returns (ok: bool, vm: Paging, dirs: seq<nat>, ghost states: seq<State>)
    requires memKib / (MEMORY_PAGE_SIZE / 1024) <= MEMORY_PAGES
    ensures ok <==> 16 < memKib / (MEMORY_PAGE_SIZE / 1024) / 32
    ensures ok ==> vm.Valid() && vm.frames.ramPages == memKib / (MEMORY_PAGE_SIZE / 1024)
    ensures ok ==> Trace(vm.frames.ramPages, ops, states) && states[|states| - 1] == Now(vm, dirs)
    ensures ok ==> vm.frames.ramPagesFree + |vm.own.Keys| == vm.frames.ramPages - KERNEL_IMAGE_PAGES
  {
    hide Owned, Accounted, ProcessTable, Step;
    vm := new Paging(contents);
    dirs, states := [], [];
    ok := vm.MemoryInit(memKib);
    if !ok {
      return;
    }
    ghost var ramPages := vm.frames.ramPages;
    NoProcesses(Now(vm, dirs));
    states := [Now(vm, dirs)];
    var i := 0;
    while i < |ops|
      invariant 0 <= i <= |ops| && |states| == i + 1 && states[i] == Now(vm, dirs)
      invariant vm.Valid() && ProcessTable(vm.own, dirs) && fresh(vm) && fresh(vm.frames)
      invariant fresh(vm.frames.alloced) && fresh(vm.frames.noswap) && vm.frames.ramPages == ramPages
      invariant Passed(ramPages, ops, states)
    {
      var running;
      dirs, running := Execute(vm, dirs, ops[i]);
      if !running {
        SameAfterPanic(ramPages, states[i], ops[i], Now(vm, dirs));
        break;
      }
      states := states + [Now(vm, dirs)];
      i := i + 1;
    }
    Conservation(vm.own, vm.frames.Free(), ramPages);
  }

  lemma NeverListed(ram: Ram, own: map<nat, Owner>, cr3: nat, free: set<nat>, ramPages: nat, pd: nat)
    requires Owned(ram, own) && Live(own, cr3) && Accounted(own, free, ramPages) && pd in free
    ensures pd != cr3 && pd != KERNEL_PAGE_DIRECTORY && pd !in own
  {
  }

  // The owners determine the free frames.
  lemma AccountedSame(own: map<nat, Owner>, free1: set<nat>, free2: set<nat>, ramPages: nat)
    requires Accounted(own, free1, ramPages) && Accounted(own, free2, ramPages)
    ensures free1 == free2
  {
  }

  // What an allocation in pd's user region adds belongs to pd.
  lemma NewOwnersBelong(ram1: Ram, own1: map<nat, Owner>, free1: set<nat>, ram2: Ram, own2: map<nat, Owner>,
                        pd: nat, first: nat, count: nat)
    requires Owned(ram2, own2) && Live(own1, pd)
    requires first == 0 ==> OnlyTablesAdded(own1, own2, pd)
    requires first != 0 ==>
      && FirstFit(ram1, pd, true, count, first) && first + count <= MEMORY_PAGES
      && Mapped(ram1, own1, free1, ram2, own2, pd, first, first + count, true)
    ensures forall f | f in own1 :: f in own2 && own2[f] == own1[f]
    ensures forall f | f in own2 && f !in own1 :: Belongs(own2, pd, f)
  {
    forall f | f in own2 && f !in own1 ensures Belongs(own2, pd, f) {
      if first != 0 && !(own2[f].Table? && own2[f].dir == pd) {
        var p: nat :| first <= p < first + count && Lookup(ram2, pd, p) == f;
        assert Live(own2, pd);
        MappedFramesAreLeaves(ram2, own2, pd, p);
        TableOf(ram2, own2, pd, p);
      }
    }
  }

  lemma OthersUntouched(ram0: Ram, own0: map<nat, Owner>, ram1: Ram, own1: map<nat, Owner>, free1: set<nat>,
                        ram2: Ram, own2: map<nat, Owner>, pd: nat, first: nat, count: nat)
    requires pd !in own0 && pd != KERNEL_PAGE_DIRECTORY && own1 == own0[pd := Directory] && Live(own1, pd)
    requires forall d: nat, p: nat | Live(own0, d) && p < MEMORY_PAGES :: EntryOf(ram1, d, p) == EntryOf(ram0, d, p)
    requires first == 0 ==> SameTranslations(ram1, ram2, own1)
    requires first != 0 ==>
      && FirstFit(ram1, pd, true, count, first) && first + count <= MEMORY_PAGES
      && Mapped(ram1, own1, free1, ram2, own2, pd, first, first + count, true)
    ensures SameTranslations(ram0, ram2, own0)
  {
    forall d: nat, p: nat | Live(own0, d) && p < MEMORY_PAGES ensures EntryOf(ram2, d, p) == EntryOf(ram0, d, p) {
      assert Live(own1, d) && d != pd;
    }
  }

  lemma StillSame(ram0: Ram, ram1: Ram, ram2: Ram, own: map<nat, Owner>)
    requires SameTranslations(ram0, ram1, own)
    requires forall d: nat, p: nat | Live(own, d) && p < MEMORY_PAGES :: EntryOf(ram2, d, p) == EntryOf(ram1, d, p)
    ensures SameTranslations(ram0, ram2, own)
  {
  }

  lemma NothingBuilt(ram: Ram, own: map<nat, Owner>)
    ensures SameTranslations(ram, ram, own)
  {
  }

  // A directory that did not exist before, with everything that has come to belong to it, is
  // all there is to take away.
  lemma BornAndGone(ram0: Ram, own0: map<nat, Owner>, ram2: Ram, own2: map<nat, Owner>, pd: nat)
    requires Owned(ram0, own0) && Owned(ram2, own2) && pd !in own0 && pd != KERNEL_PAGE_DIRECTORY && pd in own2
    requires forall f | f in own0 :: f in own2 && own2[f] == own0[f]
    requires forall f | f in own2 && f !in own0 && f != pd :: Belongs(own2, pd, f)
    ensures own2 - Territory(own2, pd) == own0
  {
    forall f | f in own0 ensures !Belongs(own2, pd, f) {
      assert own0[f].Table? ==> IsDirectory(own0, own0[f].dir);
      assert own0[f].Leaf? ==> IsTable(own0, own0[f].table);
    }
  }

  // A process's life leaves nothing behind: build a directory, map pages in it, free it, and
  // every owner, every free frame and every translation is back.
  method ProcessLife(vm: Paging, count: nat) returns (pd: nat, first: nat)
    requires vm.Valid()
    modifies vm`ram, vm`own, vm.frames`first, vm.frames`ramPagesFree, vm.frames.alloced, vm.frames.noswap
    ensures vm.Valid()
    ensures pd == 0 <==> old(vm.frames.Free()) == {}
    ensures vm.own == old(vm.own) && vm.frames.Free() == old(vm.frames.Free())
    ensures SameTranslations(old(vm.ram), vm.ram, old(vm.own))
  {
    hide Accounted, FirstFit, NoFit, RunCost, PageCost, Mapped, Owned, Territory, SameTranslations, OnlyTablesAdded;
    hide EntryOf;
    ghost var ram0, own0, free0 := vm.ram, vm.own, vm.frames.Free();
    first := 0;
    pd := vm.BuildNewPagedir();
    NothingBuilt(ram0, own0);
    if pd == 0 {
      return;
    }
    ghost var ram1, own1, free1 := vm.ram, vm.own, vm.frames.Free();
    NeverListed(ram0, own0, vm.cr3, free0, vm.frames.ramPages, pd);
    first := vm.AllocVirtualPages(pd, count, true);
    ghost var own2 := vm.own;
    ghost var ram2 := vm.ram;
    NewOwnersBelong(ram1, own1, free1, ram2, own2, pd, first, count);
    OthersUntouched(ram0, own0, ram1, own1, free1, ram2, own2, pd, first, count);
    BornAndGone(ram0, own0, ram2, own2, pd);
    var ok := vm.FreePagedir(pd);
    StillSame(ram0, ram2, vm.ram, own0);
    AccountedSame(own0, free0, vm.frames.Free(), vm.frames.ramPages);
  }
}
