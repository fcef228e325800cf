// Two-level page tables as plain values (include/memory/memory.h) and who owns which frame.
// Every change the kernel makes to its tables is one of the steps below; each keeps ownership.

module PageTables {
  import opened PhysicalFrames

  const MEMORY_PE_COUNT := 1024
  const KMEM_PDE_BEG := 1
  const KMEM_PDE_END := 64
  const USER_PDE_BEG := 128
  const USER_PDE_END := 1024
  const KERNEL_PAGE_DIRECTORY := 0x3f
  const KERNEL_PAGE_TABLES := 0x40

  datatype PageEntry = PageEntry(present: bool, write: bool, user: bool, pagenum: nat)

  const NULL_PE := PageEntry(false, false, false, 0)

  function UserPe(frame: nat): PageEntry { PageEntry(true, true, true, frame) }
  function KernelPe(frame: nat): PageEntry { PageEntry(true, true, false, frame) }
  function NewPe(frame: nat, user: bool): PageEntry { if user then UserPe(frame) else KernelPe(frame) }

  const NULL_TABLE: seq<PageEntry> := seq(MEMORY_PE_COUNT, i => NULL_PE)

  // What a frame from KERNEL_IMAGE_PAGES up is in use for; a lost one is in use for nothing, but
  // not free.
  datatype Owner =
    | Directory
    | Table(dir: nat, pde: nat)
    | Leaf(table: nat, pte: nat)
    | Lost

  // The memory, frame by frame, each read as a table of entries.
  type Ram = ram: seq<seq<PageEntry>> |
      |ram| == MEMORY_PAGES && forall f | 0 <= f < MEMORY_PAGES :: |ram[f]| == MEMORY_PE_COUNT
    witness seq(MEMORY_PAGES, i => NULL_TABLE)

  function Entry(ram: Ram, frame: nat, i: nat): PageEntry
    requires frame < MEMORY_PAGES && i < MEMORY_PE_COUNT
  {
    ram[frame][i]
  }

  function Put(ram: Ram, frame: nat, i: nat, e: PageEntry): (r: Ram)
    requires frame < MEMORY_PAGES && i < MEMORY_PE_COUNT
    ensures forall f: nat, k: nat | f < MEMORY_PAGES && k < MEMORY_PE_COUNT ::
      Entry(r, f, k) == if f == frame && k == i then e else Entry(ram, f, k)
    ensures forall f: nat | f < MEMORY_PAGES && f != frame :: r[f] == ram[f]
  {
    ram[frame := ram[frame][i := e]]
  }

  function Overwrite(ram: Ram, frame: nat, content: seq<PageEntry>): (r: Ram)
    requires frame < MEMORY_PAGES && |content| == MEMORY_PE_COUNT
    ensures forall f: nat, k: nat | f < MEMORY_PAGES && k < MEMORY_PE_COUNT ::
      Entry(r, f, k) == if f == frame then content[k] else Entry(ram, f, k)
    ensures forall f: nat | f < MEMORY_PAGES && f != frame :: r[f] == ram[f]
  {
    ram[frame := content]
  }

  predicate IsDirectory(own: map<nat, Owner>, d: nat) {
    d == KERNEL_PAGE_DIRECTORY || (d in own && own[d] == Directory)
  }

  predicate IsTable(own: map<nat, Owner>, t: nat) {
    KERNEL_PAGE_TABLES <= t < KERNEL_PAGE_TABLES + KMEM_PDE_END || (t in own && own[t].Table?)
  }

  // The entries of the first kernel table that map the kernel image onto itself.
  predicate Identity(t: nat, i: nat) {
    t == KERNEL_PAGE_TABLES && i < KERNEL_IMAGE_PAGES
  }

  predicate LeafSlot(own: map<nat, Owner>, t: nat, i: nat) {
    IsTable(own, t) && i < MEMORY_PE_COUNT && !Identity(t, i)
  }

  predicate TableSlot(own: map<nat, Owner>, d: nat, pde: nat) {
    IsDirectory(own, d) && KMEM_PDE_END <= pde < MEMORY_PE_COUNT
  }

  // The kernel's page tables are in every directory.
  ghost predicate KernelShared(ram: Ram, own: map<nat, Owner>) {
    forall d: nat, pde: nat | d < MEMORY_PAGES && IsDirectory(own, d) && pde < KMEM_PDE_END ::
      Entry(ram, d, pde).pagenum == KERNEL_PAGE_TABLES + pde
  }

  // Every entry in use is known to the owner of the frame it names ...
  ghost predicate EntriesOwned(ram: Ram, own: map<nat, Owner>) {
    && (forall d: nat, pde: nat {:trigger Entry(ram, d, pde)} |
        d < MEMORY_PAGES && pde < MEMORY_PE_COUNT && TableSlot(own, d, pde) && Entry(ram, d, pde).pagenum != 0 ::
        Entry(ram, d, pde).pagenum in own && own[Entry(ram, d, pde).pagenum] == Table(d, pde))
    && (forall t: nat, i: nat {:trigger Entry(ram, t, i)} |
        t < MEMORY_PAGES && i < MEMORY_PE_COUNT && LeafSlot(own, t, i) && Entry(ram, t, i).pagenum != 0 ::
        Entry(ram, t, i).pagenum in own && own[Entry(ram, t, i).pagenum] == Leaf(t, i))
  }

  // ... and every owned frame is named by exactly that entry.
  ghost predicate OwnersReal(ram: Ram, own: map<nat, Owner>) {
    forall f | f in own ::
      && KERNEL_IMAGE_PAGES <= f < MEMORY_PAGES
      && match own[f] {
           case Directory => true
           case Table(d, pde) => d < MEMORY_PAGES && TableSlot(own, d, pde) && Entry(ram, d, pde).pagenum == f
           case Leaf(t, i) => t < MEMORY_PAGES && LeafSlot(own, t, i) && Entry(ram, t, i).pagenum == f
           case Lost => true
         }
  }

  // An entry that names no frame is all zero.
  ghost predicate EmptyIsNull(ram: Ram, own: map<nat, Owner>) {
    forall t: nat, i: nat |
      t < MEMORY_PAGES && i < MEMORY_PE_COUNT && (LeafSlot(own, t, i) || TableSlot(own, t, i)) ::
      Entry(ram, t, i).pagenum == 0 ==> Entry(ram, t, i) == NULL_PE
  }

  // The processor can go through what a directory names: it is present and writable, and open to
  // programs behind the kernel's part and only there.
  ghost predicate DirectoriesUsable(ram: Ram, own: map<nat, Owner>) {
    forall d: nat, pde: nat |
      d < MEMORY_PAGES && IsDirectory(own, d) && pde < MEMORY_PE_COUNT && Entry(ram, d, pde).pagenum != 0 ::
      var e := Entry(ram, d, pde); e.present && e.write && (e.user <==> KMEM_PDE_END <= pde)
  }

  ghost predicate Owned(ram: Ram, own: map<nat, Owner>) {
    && KernelShared(ram, own) && EntriesOwned(ram, own) && OwnersReal(ram, own) && EmptyIsNull(ram, own)
    && DirectoriesUsable(ram, own)
  }

  // ---- the steps ----

  lemma AddLeaf(ram: Ram, own: map<nat, Owner>, t: nat, i: nat, e: PageEntry)
    requires Owned(ram, own) && t < MEMORY_PAGES && LeafSlot(own, t, i) && Entry(ram, t, i).pagenum == 0
    requires KERNEL_IMAGE_PAGES <= e.pagenum < MEMORY_PAGES && e.pagenum !in own
    ensures Owned(Put(ram, t, i, e), own[e.pagenum := Leaf(t, i)])
  {
  }

  lemma RemoveLeaf(ram: Ram, own: map<nat, Owner>, t: nat, i: nat)
    requires Owned(ram, own) && t < MEMORY_PAGES && LeafSlot(own, t, i) && Entry(ram, t, i).pagenum != 0
    ensures Entry(ram, t, i).pagenum in own && own[Entry(ram, t, i).pagenum] == Leaf(t, i)
    ensures Owned(Put(ram, t, i, NULL_PE), own - {Entry(ram, t, i).pagenum})
  {
  }

  // Overwriting an entry that is in use loses the frame it named.
  ghost function Dropped(own: map<nat, Owner>, f: nat): map<nat, Owner> {
    if f == 0 then own else own[f := Lost]
  }

  lemma AddLost(ram: Ram, own: map<nat, Owner>, g: nat)
    requires Owned(ram, own) && g !in own && KERNEL_IMAGE_PAGES <= g < MEMORY_PAGES
    ensures Owned(ram, own[g := Lost])
  {
  }

  lemma ReplaceLeaf(ram: Ram, own: map<nat, Owner>, t: nat, i: nat, e: PageEntry)
    requires Owned(ram, own) && t < MEMORY_PAGES && LeafSlot(own, t, i)
    requires KERNEL_IMAGE_PAGES <= e.pagenum < MEMORY_PAGES && e.pagenum !in own
    ensures Owned(Put(ram, t, i, e), Dropped(own, Entry(ram, t, i).pagenum)[e.pagenum := Leaf(t, i)])
  {
    var g := Entry(ram, t, i).pagenum;
    if g != 0 {
      RemoveLeaf(ram, own, t, i);
      AddLeaf(Put(ram, t, i, NULL_PE), own - {g}, t, i, e);
      assert ram[t][i := NULL_PE][i := e] == ram[t][i := e];
      assert Put(Put(ram, t, i, NULL_PE), t, i, e) == Put(ram, t, i, e);
      AddLost(Put(ram, t, i, e), (own - {g})[e.pagenum := Leaf(t, i)], g);
      assert (own - {g})[e.pagenum := Leaf(t, i)][g := Lost] == own[g := Lost][e.pagenum := Leaf(t, i)];
    } else {
      AddLeaf(ram, own, t, i, e);
    }
  }

  lemma AddTable(ram: Ram, own: map<nat, Owner>, d: nat, pde: nat, e: PageEntry)
    requires Owned(ram, own) && d < MEMORY_PAGES && TableSlot(own, d, pde) && Entry(ram, d, pde).pagenum == 0
    requires KERNEL_IMAGE_PAGES <= e.pagenum < MEMORY_PAGES && e.pagenum !in own && e.present && e.write && e.user
    ensures Owned(Put(Overwrite(ram, e.pagenum, NULL_TABLE), d, pde, e), own[e.pagenum := Table(d, pde)])
  {
  }

  lemma RemoveTable(ram: Ram, own: map<nat, Owner>, d: nat, pde: nat)
    requires Owned(ram, own) && d < MEMORY_PAGES && TableSlot(own, d, pde) && Entry(ram, d, pde).pagenum != 0
    requires Entry(ram, d, pde).pagenum < MEMORY_PAGES
    requires forall i: nat | i < MEMORY_PE_COUNT :: Entry(ram, Entry(ram, d, pde).pagenum, i).pagenum == 0
    ensures Entry(ram, d, pde).pagenum in own
    ensures Owned(Put(ram, d, pde, NULL_PE), own - {Entry(ram, d, pde).pagenum})
  {
  }

  lemma AddDirectory(ram: Ram, own: map<nat, Owner>, f: nat, content: seq<PageEntry>)
    requires Owned(ram, own) && KERNEL_IMAGE_PAGES <= f < MEMORY_PAGES && f !in own
    requires content == ram[KERNEL_PAGE_DIRECTORY][..KMEM_PDE_END] + NULL_TABLE[KMEM_PDE_END..]
    ensures Owned(Overwrite(ram, f, content), own[f := Directory])
  {
    assert forall i: nat | i < KMEM_PDE_END :: content[i] == Entry(ram, KERNEL_PAGE_DIRECTORY, i);
  }

  lemma RemoveDirectory(ram: Ram, own: map<nat, Owner>, d: nat)
    requires Owned(ram, own) && d in own && own[d] == Directory
    requires forall pde: nat | KMEM_PDE_END <= pde < MEMORY_PE_COUNT :: Entry(ram, d, pde).pagenum == 0
    ensures Owned(ram, own - {d})
  {
  }

  // A program writes what it likes into a page that is mapped for it.
  lemma StoreLeaf(ram: Ram, own: map<nat, Owner>, f: nat, content: seq<PageEntry>)
    requires Owned(ram, own) && f in own && own[f].Leaf? && |content| == MEMORY_PE_COUNT
    ensures f < MEMORY_PAGES && Owned(Overwrite(ram, f, content), own)
  {
  }
}
