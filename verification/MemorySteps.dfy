// Calls into the memory manager as steps between states, and what every run of them keeps.

module MemorySteps {
  import opened PhysicalFrames
  import opened PageTables
  import opened AddressSpaces
  import opened VirtualRuns
  import opened Territories
  import opened VirtualMemory
  import opened Sequences

  datatype Op =
    | NewProcess
    | FreeProcess(k: nat)
    | Switch(k: nat)
    | Alloc(k: nat, count: nat, user: bool)
    | Map(k: nat, page: nat, pin: bool, user: bool)
    | Unmap(k: nat, page: nat)
    | Write(k: nat, page: nat, content: seq<PageEntry>)

  // The memory, who owns its frames, the active directory, the free frames and the processes.
  datatype State = State(ram: Ram, own: map<nat, Owner>, cr3: nat, free: set<nat>, dirs: seq<nat>)

  // Frame f is a process's directory, one of the page tables a directory does not share, or
  // mapped somewhere.
  ghost predicate Used(ram: Ram, dirs: seq<nat>, f: nat) {
    || f in dirs
    || (exists d: nat, pde: nat :: (d in dirs || d == KERNEL_PAGE_DIRECTORY) && d < MEMORY_PAGES
          && KMEM_PDE_END <= pde < MEMORY_PE_COUNT && Entry(ram, d, pde).pagenum == f)
    || (exists d: nat, p: nat :: (d in dirs || d == KERNEL_PAGE_DIRECTORY) && d < MEMORY_PAGES
          && KERNEL_IMAGE_PAGES <= p < MEMORY_PAGES && Lookup(ram, d, p) == f)
  }

  // The process table knows every directory, once.
  ghost predicate ProcessTable(own: map<nat, Owner>, dirs: seq<nat>) {
    && (forall k | 0 <= k < |dirs| :: dirs[k] in own && own[dirs[k]] == Directory)
    && (forall f | f in own && own[f] == Directory :: f in dirs)
    && Distinct(dirs)
  }

  lemma UsedIsOwned(ram: Ram, own: map<nat, Owner>, dirs: seq<nat>, f: nat)
    requires Owned(ram, own) && ProcessTable(own, dirs) && 0 < f
    ensures Used(ram, dirs, f) <==> f in own && own[f] != Lost
  {
    if f in own && own[f] != Lost {
      assert KERNEL_IMAGE_PAGES <= f < MEMORY_PAGES;
      match own[f] {
        case Directory =>
        case Table(d, pde) =>
          assert Entry(ram, d, pde).pagenum == f;
        case Leaf(t, i) =>
          var d := if t < KERNEL_IMAGE_PAGES then KERNEL_PAGE_DIRECTORY else own[t].dir;
          var pde := if t < KERNEL_IMAGE_PAGES then t - KERNEL_PAGE_TABLES else own[t].pde;
          var p := pde * MEMORY_PE_COUNT + i;
          assert p / MEMORY_PE_COUNT == pde && p % MEMORY_PE_COUNT == i;
          assert Entry(ram, d, pde).pagenum == t;
          assert Lookup(ram, d, p) == f;
      }
    }
    forall d: nat, p: nat | (d in dirs || d == KERNEL_PAGE_DIRECTORY) && d < MEMORY_PAGES
      && KERNEL_IMAGE_PAGES <= p < MEMORY_PAGES && Lookup(ram, d, p) == f
      ensures f in own && own[f] != Lost
    {
      MappedFramesAreLeaves(ram, own, d, p);
    }
  }

  lemma SameDirectories(ram1: Ram, own1: map<nat, Owner>, ram2: Ram, own2: map<nat, Owner>, dirs: seq<nat>)
    requires ProcessTable(own1, dirs) && Owned(ram1, own1) && Owned(ram2, own2)
    requires forall d: nat :: Live(own2, d) <==> Live(own1, d)
    ensures ProcessTable(own2, dirs)
  {
    forall k | 0 <= k < |dirs| ensures dirs[k] in own2 && own2[dirs[k]] == Directory {
      assert Live(own1, dirs[k]);
    }
    forall f | f in own2 && own2[f] == Directory ensures f in dirs {
      assert Live(own2, f);
    }
  }

  lemma DirectoryFreed(ram: Ram, own1: map<nat, Owner>, own2: map<nat, Owner>, dirs: seq<nat>, k: nat)
    requires ProcessTable(own1, dirs) && Owned(ram, own1) && k < |dirs|
    requires own2 == own1 - Territory(own1, dirs[k])
    ensures ProcessTable(own2, dirs[..k] + dirs[k + 1..])
  {
    DistinctWithout(dirs, k);
    assert dirs[k] in Territory(own1, dirs[k]);
    assert forall d | d in dirs && d != dirs[k] :: d in own1 && !Belongs(own1, dirs[k], d);
  }

  lemma DirectoryBuilt(own: map<nat, Owner>, dirs: seq<nat>, pd: nat)
    requires ProcessTable(own, dirs) && pd !in own
    ensures ProcessTable(own[pd := Directory], dirs + [pd])
  {
  }

  ghost predicate StateOk(ramPages: nat, s: State) {
    && KERNEL_IMAGE_PAGES < ramPages <= MEMORY_PAGES
    && Owned(s.ram, s.own) && Live(s.own, s.cr3)
    && Accounted(s.own, s.free, ramPages)
    && ProcessTable(s.own, s.dirs)
  }

  // The directory of a process; the kernel's own for any other number.
  function DirectoryOf(dirs: seq<nat>, k: nat): nat {
    if k < |dirs| then dirs[k] else KERNEL_PAGE_DIRECTORY
  }

  lemma Listed(ram: Ram, own: map<nat, Owner>, dirs: seq<nat>, k: nat)
    requires ProcessTable(own, dirs) && Owned(ram, own)
    ensures Live(own, DirectoryOf(dirs, k)) && DirectoryOf(dirs, k) != 0
  {
  }

  ghost function Dir(ramPages: nat, s: State, k: nat): (d: nat)
    requires StateOk(ramPages, s)
    ensures Live(s.own, d)
  {
    DirectoryOf(s.dirs, k)
  }

  // Pages a program or the kernel may map and unmap: all but those of the kernel image.
  predicate Changeable(page: nat) {
    KERNEL_IMAGE_PAGES <= page < MEMORY_PAGES
  }

  // ---- the steps ----

  ghost predicate Built(ramPages: nat, s: State, t: State)
    requires StateOk(ramPages, s)
  {
    && (s.free == {} ==> t == s)
    && (s.free != {} ==>
        && t.dirs != [] && t.dirs[..|t.dirs| - 1] == s.dirs
        && var pd := t.dirs[|t.dirs| - 1];
        && pd in s.free && pd < MEMORY_PAGES
        && t.own == s.own[pd := Directory] && t.free == s.free - {pd} && t.cr3 == s.cr3
        && (forall d: nat, p: nat | Live(s.own, d) && p < MEMORY_PAGES :: EntryOf(t.ram, d, p) == EntryOf(s.ram, d, p))
        && forall p: nat | p < MEMORY_PAGES ::
             EntryOf(t.ram, pd, p) == if p < KMEM_PAGES_END then EntryOf(s.ram, KERNEL_PAGE_DIRECTORY, p) else NULL_PE)
  }

  // Neither the kernel's directory nor the active one can be freed.
  ghost predicate Freed(ramPages: nat, s: State, k: nat, t: State, running: bool)
    requires StateOk(ramPages, s)
  {
    && (running <==> k < |s.dirs| && s.dirs[k] != s.cr3)
    && (!running ==> t == s)
    && (running ==>
        && t.dirs == s.dirs[..k] + s.dirs[k + 1..] && t.cr3 == s.cr3
        && t.own == s.own - Territory(s.own, s.dirs[k])
        && t.free == s.free + Territory(s.own, s.dirs[k])
        && forall d: nat, p: nat | Live(t.own, d) && p < MEMORY_PAGES :: EntryOf(t.ram, d, p) == EntryOf(s.ram, d, p))
  }

  ghost predicate RunAllocated(s: State, pd: nat, first: nat, count: nat, user: bool, t: State)
    requires pd < MEMORY_PAGES
  {
    && first + count <= MEMORY_PAGES && FirstFit(s.ram, pd, user, count, first)
    && |t.free| == |s.free| - RunCost(s.ram, pd, first, first + count)
    && Mapped(s.ram, s.own, s.free, t.ram, t.own, pd, first, first + count, user)
  }

  ghost predicate Allocated(ramPages: nat, s: State, pd: nat, count: nat, user: bool, t: State)
    requires pd < MEMORY_PAGES
  {
    && t.dirs == s.dirs && t.cr3 == s.cr3
    && if AllocFails(s.ram, pd, user, count, |s.free|, ramPages - KERNEL_IMAGE_PAGES)
       then SameTranslations(s.ram, t.ram, s.own) && OnlyTablesAdded(s.own, t.own, pd)
       else exists first: nat :: RunAllocated(s, pd, first, count, user, t)
  }

  ghost predicate PageMapped(ramPages: nat, s: State, k: nat, page: nat, user: bool, t: State)
    requires StateOk(ramPages, s) && Changeable(page)
  {
    var pd := Dir(ramPages, s, k);
    && t.dirs == s.dirs && t.cr3 == s.cr3
    && (|s.free| < PageCost(s.ram, pd, page) ==>
        SameTranslations(s.ram, t.ram, s.own) && OnlyTablesAdded(s.own, t.own, pd) && t.free == {})
    && (|s.free| >= PageCost(s.ram, pd, page) ==>
        var f := Lookup(t.ram, pd, page);
        && f in s.free && f in t.own
        && t.free <= s.free && |t.free| == |s.free| - PageCost(s.ram, pd, page)
        && OnlyTablesAdded(Dropped(s.own, Lookup(s.ram, pd, page)), t.own - {f}, pd)
        && forall d: nat, p: nat | Live(s.own, d) && p < MEMORY_PAGES ::
             EntryOf(t.ram, d, p) == if SameSlot(pd, page, d, p) then NewPe(f, user) else EntryOf(s.ram, d, p))
  }

  ghost predicate PageUnmapped(ramPages: nat, s: State, k: nat, page: nat, t: State, running: bool)
    requires StateOk(ramPages, s) && Changeable(page)
  {
    var pd := Dir(ramPages, s, k);
    var f := Lookup(s.ram, pd, page);
    && (running <==> f != 0)
    && (!running ==> t == s)
    && (running ==>
        && t.dirs == s.dirs && t.cr3 == s.cr3
        && f in s.own && t.own == s.own - {f} && t.free == s.free + {f}
        && forall d: nat, p: nat | Live(s.own, d) && p < MEMORY_PAGES ::
             EntryOf(t.ram, d, p) == if SameSlot(pd, page, d, p) then NULL_PE else EntryOf(s.ram, d, p))
  }

  // A program can write where a page is mapped for it.
  ghost predicate Writes(ramPages: nat, s: State, k: nat, page: nat, content: seq<PageEntry>)
    requires StateOk(ramPages, s)
  {
    && Changeable(page) && |content| == MEMORY_PE_COUNT
    && 0 < Lookup(s.ram, Dir(ramPages, s, k), page) < MEMORY_PAGES
  }

  // One call takes s to t; the kernel runs on, unless the call panics.
  ghost predicate Step(ramPages: nat, s: State, op: Op, t: State, running: bool) {
    && StateOk(ramPages, s) && StateOk(ramPages, t)
    && match op {
         case NewProcess => running && Built(ramPages, s, t)
         case FreeProcess(k) => Freed(ramPages, s, k, t, running)
         case Switch(k) => running && t == s.(cr3 := Dir(ramPages, s, k))
         case Alloc(k, count, user) =>
           running && Allocated(ramPages, s, if user then Dir(ramPages, s, k) else s.cr3, count, user, t)
         case Map(k, page, _, user) =>
           running && (if Changeable(page) then PageMapped(ramPages, s, k, page, user, t) else t == s)
         case Unmap(k, page) =>
           if Changeable(page) then PageUnmapped(ramPages, s, k, page, t, running) else running && t == s
         case Write(k, page, content) =>
           running && t == if Writes(ramPages, s, k, page, content)
             then s.(ram := Overwrite(s.ram, Lookup(s.ram, Dir(ramPages, s, k), page), content)) else s
       }
  }

  // The machine as memory_init leaves it.
  ghost predicate Initial(ramPages: nat, s: State) {
    && s.own == map[] && s.cr3 == KERNEL_PAGE_DIRECTORY && s.dirs == []
    && s.free == Interval(KERNEL_IMAGE_PAGES, ramPages)
    && forall p: nat | p < MEMORY_PAGES :: Lookup(s.ram, s.cr3, p) == if p < KERNEL_IMAGE_PAGES then p else 0
  }

  // ---- what is lost ----

  // map_virtual_page on a page that is mapped already.
  ghost predicate Remaps(ramPages: nat, s: State, op: Op) {
    && StateOk(ramPages, s) && op.Map? && Changeable(op.page)
    && Lookup(s.ram, Dir(ramPages, s, op.k), op.page) != 0
  }

  // It loses the old frame if there is a new one.
  ghost predicate Loses(ramPages: nat, s: State, op: Op) {
    Remaps(ramPages, s, op) && |s.free| >= PageCost(s.ram, Dir(ramPages, s, op.k), op.page)
  }

  ghost function LostFrames(s: State): set<nat> {
    set f | f in s.own && s.own[f] == Lost
  }

  lemma ZeroIsNotOwned(ram: Ram, own: map<nat, Owner>)
    requires Owned(ram, own)
    ensures 0 !in own
  {
  }

  lemma AllocLosesNone(s: State, t: State, pd: nat, first: nat, count: nat, user: bool)
    requires Owned(t.ram, t.own) && Live(s.own, pd) && first + count <= MEMORY_PAGES
    requires FirstFit(s.ram, pd, user, count, first)
    requires Mapped(s.ram, s.own, s.free, t.ram, t.own, pd, first, first + count, user)
    ensures LostFrames(t) == LostFrames(s)
  {
    hide Owned, RunFree;
    forall f | f in t.own && f !in s.own ensures t.own[f] != Lost {
      if !(t.own[f].Table? && t.own[f].dir == pd) {
        var p: nat :| first <= p < first + count && Lookup(t.ram, pd, p) == f;
        ZeroIsNotOwned(t.ram, t.own);
        MappedFramesAreLeaves(t.ram, t.own, pd, p);
      }
    }
  }

  lemma MapLosesOld(s: State, t: State, pd: nat, page: nat)
    requires Owned(s.ram, s.own) && Owned(t.ram, t.own) && Live(s.own, pd) && Live(t.own, pd) && Changeable(page)
    requires Lookup(t.ram, pd, page) in t.own && Lookup(t.ram, pd, page) !in s.own
    requires OnlyTablesAdded(Dropped(s.own, Lookup(s.ram, pd, page)), t.own - {Lookup(t.ram, pd, page)}, pd)
    ensures LostFrames(t) == LostFrames(s) + if Lookup(s.ram, pd, page) == 0 then {} else {Lookup(s.ram, pd, page)}
    ensures Lookup(s.ram, pd, page) !in LostFrames(s)
  {
    var f, g := Lookup(t.ram, pd, page), Lookup(s.ram, pd, page);
    hide Owned;
    ZeroIsNotOwned(s.ram, s.own);
    ZeroIsNotOwned(t.ram, t.own);
    MappedFramesAreLeaves(t.ram, t.own, pd, page);
    if g != 0 {
      MappedFramesAreLeaves(s.ram, s.own, pd, page);
    }
    forall h | h in t.own && h !in s.own ensures t.own[h] != Lost {
      assert h != f ==> h in t.own - {f};
    }
    forall h | h in s.own ensures h in t.own && (t.own[h] == Lost <==> s.own[h] == Lost || h == g) {
      assert h in t.own - {f};
    }
  }

  lemma UnmapLosesNone(s: State, t: State, pd: nat, page: nat)
    requires Owned(s.ram, s.own) && Live(s.own, pd) && Changeable(page) && Lookup(s.ram, pd, page) != 0
    requires t.own == s.own - {Lookup(s.ram, pd, page)}
    ensures LostFrames(t) == LostFrames(s)
  {
    MappedFramesAreLeaves(s.ram, s.own, pd, page);
  }

  lemma TablesLoseNone(s: State, t: State, pd: nat)
    requires OnlyTablesAdded(s.own, t.own, pd)
    ensures LostFrames(t) == LostFrames(s)
  {
  }

  lemma FreeLosesNone(s: State, t: State, pd: nat)
    requires t.own == s.own - Territory(s.own, pd) && pd in s.own && s.own[pd] == Directory
    ensures LostFrames(t) == LostFrames(s)
  {
  }

  // What a step adds to the lost frames: the old frame of a page mapped twice, and nothing else;
  // and what is lost stays lost.
  lemma StepLoses(ramPages: nat, s: State, op: Op, t: State, running: bool)
    requires Step(ramPages, s, op, t, running)
    ensures LostFrames(t) == LostFrames(s) +
      if Loses(ramPages, s, op) then {Lookup(s.ram, Dir(ramPages, s, op.k), op.page)} else {}
    ensures Loses(ramPages, s, op) ==> Lookup(s.ram, Dir(ramPages, s, op.k), op.page) !in LostFrames(s)
  {
    hide Owned, Territory, EntryOf, Mapped, FirstFit, AllocFails, SameTranslations, Dropped, OnlyTablesAdded, PageCost;
    match op
    case FreeProcess(k) =>
      if running {
        FreeLosesNone(s, t, s.dirs[k]);
      }
    case Alloc(k, count, user) =>
      var pd := if user then Dir(ramPages, s, k) else s.cr3;
      if AllocFails(s.ram, pd, user, count, |s.free|, ramPages - KERNEL_IMAGE_PAGES) {
        TablesLoseNone(s, t, pd);
      } else {
        var first: nat :| RunAllocated(s, pd, first, count, user, t);
        AllocLosesNone(s, t, pd, first, count, user);
      }
    case Map(k, page, _, user) =>
      if Changeable(page) {
        var pd := Dir(ramPages, s, k);
        if |s.free| >= PageCost(s.ram, pd, page) {
          assert Dir(ramPages, t, k) == pd;
          MapLosesOld(s, t, pd, page);
        } else {
          TablesLoseNone(s, t, pd);
        }
      }
    case Unmap(k, page) =>
      if Changeable(page) && running {
        UnmapLosesNone(s, t, Dir(ramPages, s, k), page);
      }
    case _ =>
  }

  // ---- runs ----

  // The states a run passes through: the first is the one memory_init leaves, and each call takes
  // one to the next ...
  ghost predicate Passed(ramPages: nat, ops: seq<Op>, states: seq<State>) {
    && 0 < |states| <= |ops| + 1
    && Initial(ramPages, states[0]) && StateOk(ramPages, states[0])
    && forall i | 0 <= i < |states| - 1 :: Step(ramPages, states[i], ops[i], states[i + 1], true)
  }

  // ... and the run ends early only with a call that panics.
  ghost predicate Trace(ramPages: nat, ops: seq<Op>, states: seq<State>) {
    && Passed(ramPages, ops, states)
    && (|states| <= |ops| ==>
        Step(ramPages, states[|states| - 1], ops[|states| - 1], states[|states| - 1], false))
  }

  lemma NoProcesses(s: State)
    requires s.own == map[] && s.dirs == []
    ensures ProcessTable(s.own, s.dirs)
  {
  }

  lemma SameAfterPanic(ramPages: nat, s: State, op: Op, t: State)
    requires Step(ramPages, s, op, t, false)
    ensures t == s
  {
  }

  // How many of the first n calls lost a frame.
  ghost function Losses(ramPages: nat, ops: seq<Op>, states: seq<State>, n: nat): nat
    requires n < |states| <= |ops| + 1
  {
    if n == 0 then 0
    else Losses(ramPages, ops, states, n - 1) + if Loses(ramPages, states[n - 1], ops[n - 1]) then 1 else 0
  }

  // Each of them lost one more.
  lemma {:induction false} RunLoses(ramPages: nat, ops: seq<Op>, states: seq<State>, n: nat)
    requires Passed(ramPages, ops, states) && n < |states|
    ensures |LostFrames(states[n])| == Losses(ramPages, ops, states, n)
    ensures LostFrames(states[n]) == {} <==> forall j | 0 <= j < n :: !Loses(ramPages, states[j], ops[j])
  {
    hide Step, Loses;
    if n == 0 {
    } else {
      RunLoses(ramPages, ops, states, n - 1);
      StepLoses(ramPages, states[n - 1], ops[n - 1], states[n], true);
    }
  }

  lemma RunStateOk(ramPages: nat, ops: seq<Op>, states: seq<State>, n: nat)
    requires Passed(ramPages, ops, states) && n < |states|
    ensures StateOk(ramPages, states[n])
  {
    assert 0 < n ==> Step(ramPages, states[n - 1], ops[n - 1], states[n], true);
  }

  // At every moment of every run a frame is free, in use, or lost, and only one of these; as many
  // are lost as pages were mapped twice while there was a frame; and exactly when none was, the
  // frames in use are those that are not free.
  lemma RunIsExact(ramPages: nat, ops: seq<Op>, states: seq<State>, n: nat)
    requires Passed(ramPages, ops, states) && n < |states|
    ensures var s := states[n];
      && (forall f: nat | KERNEL_IMAGE_PAGES <= f < ramPages ::
           && (f !in s.free <==> Used(s.ram, s.dirs, f) || f in LostFrames(s))
           && !(Used(s.ram, s.dirs, f) && f in LostFrames(s)))
      && |LostFrames(s)| == Losses(ramPages, ops, states, n)
      && ((forall f: nat | KERNEL_IMAGE_PAGES <= f < ramPages :: f !in s.free <==> Used(s.ram, s.dirs, f))
          <==> forall j | 0 <= j < n :: !Loses(ramPages, states[j], ops[j]))
      && |s.own.Keys| + |s.free| == ramPages - KERNEL_IMAGE_PAGES
  {
    RunStateOk(ramPages, ops, states, n);
    hide Step, Loses, Used, Owned, ProcessTable;
    var s := states[n];
    forall f: nat | KERNEL_IMAGE_PAGES <= f < ramPages
      ensures Used(s.ram, s.dirs, f) <==> f in s.own && s.own[f] != Lost
    {
      UsedIsOwned(s.ram, s.own, s.dirs, f);
    }
    Conservation(s.own, s.free, ramPages);
    RunLoses(ramPages, ops, states, n);
    if LostFrames(s) != {} {
      var f :| f in LostFrames(s);
      assert KERNEL_IMAGE_PAGES <= f < ramPages && f !in s.free && !Used(s.ram, s.dirs, f);
    }
  }

  // What is mapped is mapped on a frame and through a table that are there the next time.
  lemma MappedOnce(ramPages: nat, s: State, op: Op, t: State)
    requires Step(ramPages, s, op, t, true) && op.Map? && Changeable(op.page)
    requires |s.free| > PageCost(s.ram, Dir(ramPages, s, op.k), op.page)
    ensures StateOk(ramPages, t) && Dir(ramPages, t, op.k) == Dir(ramPages, s, op.k)
    ensures var pd := Dir(ramPages, s, op.k);
      && Lookup(t.ram, pd, op.page) in s.free && Lookup(t.ram, pd, op.page) != 0
      && |t.free| >= PageCost(t.ram, pd, op.page)
  {
    hide Owned, ProcessTable, OnlyTablesAdded, Dropped, SameTranslations;
    ZeroIsNotOwned(t.ram, t.own);
  }

  // Mapping a page twice in a row loses the first frame, if there was one to spare.
  lemma MapTwice(ramPages: nat, ops: seq<Op>, states: seq<State>, n: nat, k: nat, page: nat)
    requires Passed(ramPages, ops, states) && n + 2 < |states| && Changeable(page)
    requires ops[n].Map? && ops[n].k == k && ops[n].page == page
    requires ops[n + 1].Map? && ops[n + 1].k == k && ops[n + 1].page == page
    ensures StateOk(ramPages, states[n]) && StateOk(ramPages, states[n + 1])
    ensures var s, t, u := states[n], states[n + 1], states[n + 2];
      var pd := Dir(ramPages, s, k);
      |s.free| > PageCost(s.ram, pd, page) ==>
        var f := Lookup(t.ram, pd, page); f in s.free && f in LostFrames(u) && f !in u.free && !Used(u.ram, u.dirs, f)
  {
    RunStateOk(ramPages, ops, states, n);
    RunStateOk(ramPages, ops, states, n + 1);
    RunStateOk(ramPages, ops, states, n + 2);
    hide Step, Owned, ProcessTable, Used, PageCost, EntryOf, Initial;
    var s, t, u := states[n], states[n + 1], states[n + 2];
    assert Step(ramPages, s, ops[n], t, true) && Step(ramPages, t, ops[n + 1], u, true);
    if |s.free| > PageCost(s.ram, Dir(ramPages, s, k), page) {
      MappedOnce(ramPages, s, ops[n], t);
      StepLoses(ramPages, t, ops[n + 1], u, true);
      UsedIsOwned(u.ram, u.own, u.dirs, Lookup(t.ram, Dir(ramPages, s, k), page));
    }
  }

  // At every moment of every run a frame behind a page outside the kernel image is behind that
  // page of that process only, or behind that kernel page in all of them; and it holds no table.
  lemma RunIsolates(ramPages: nat, ops: seq<Op>, states: seq<State>, n: nat, i: nat, p1: nat, j: nat, p2: nat)
    requires Passed(ramPages, ops, states) && n < |states| && Changeable(p1) && Changeable(p2)
    ensures StateOk(ramPages, states[n])
    ensures var s := states[n];
      var d1, d2 := Dir(ramPages, s, i), Dir(ramPages, s, j);
      var f := Lookup(s.ram, d1, p1);
      f != 0 ==>
        && f !in s.free && !IsTable(s.own, f) && !IsDirectory(s.own, f)
        && (Lookup(s.ram, d2, p2) == f ==> SameSlot(d1, p1, d2, p2))
  {
    RunStateOk(ramPages, ops, states, n);
    hide Step, Remaps, Owned, ProcessTable;
    var s := states[n];
    var d1, d2 := Dir(ramPages, s, i), Dir(ramPages, s, j);
    if Lookup(s.ram, d1, p1) != 0 {
      MappedFramesAreLeaves(s.ram, s.own, d1, p1);
      if Lookup(s.ram, d2, p2) == Lookup(s.ram, d1, p1) {
        Isolation(s.ram, s.own, d1, p1, d2, p2);
      }
    }
  }
}
