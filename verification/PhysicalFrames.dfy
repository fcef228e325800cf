// The physical frame bitmap of src/memory/memory.c and src/memory/init.c: one bit a frame,
// a counter of free frames and a hint, the first word that may still hold a clear bit.

module PhysicalFrames {
  import opened Words

  const MEMORY_PAGE_SIZE := 4096
  const MEMORY_PAGES := 4096 * 256
  const BITMAP_LEN := MEMORY_PAGES / 32
  const KERNEL_IMAGE_PAGES := 2 * 256

  // The frames from lo up to but not including hi.
  function Interval(lo: nat, hi: nat): (frames: set<nat>)
    ensures forall f :: f in frames <==> lo <= f < hi
    ensures |frames| == if lo <= hi then hi - lo else 0
    decreases hi
  {
    if lo < hi then Interval(lo, hi - 1) + {hi - 1} else {}
  }

  predicate FrameBit(bitmap: array<Word>, frame: nat)
    requires bitmap.Length == BITMAP_LEN && frame < MEMORY_PAGES
    reads bitmap
  {
    bitmap[frame / 32][frame % 32]
  }

  // The words init_phys_page_bitmaps leaves behind: ones, zeros over RAM, a partial word at
  // either end.
  lemma InitialBitmap(bitmap: array<Word>, k: nat, p: nat)
    requires bitmap.Length == BITMAP_LEN && p <= MEMORY_PAGES && (k + 31) / 32 < p / 32
    requires forall i | 0 <= i < BITMAP_LEN ::
      bitmap[i] ==
        if i == p / 32 && p % 32 != 0 then OnesShiftedLeft(p % 32)
        else if (k + 31) / 32 <= i < p / 32 then ZERO
        else if i == k / 32 && k % 32 != 0 then OnesShiftedRight(32 - k % 32)
        else ONES
    ensures forall f: nat | f < MEMORY_PAGES :: FrameBit(bitmap, f) <==> !(k <= f < p)
  {
    forall f: nat | f < MEMORY_PAGES ensures FrameBit(bitmap, f) <==> !(k <= f < p) {
      assert f == 32 * (f / 32) + f % 32 && k == 32 * (k / 32) + k % 32 && p == 32 * (p / 32) + p % 32;
    }
  }

  class FrameAllocator {
    const alloced: array<Word>
    const noswap: array<Word>
    var first: nat
    var ramPages: nat
    var kernelRamPages: nat
    var ramPagesFree: nat

    ghost predicate Shape()
    {
      alloced.Length == BITMAP_LEN && noswap.Length == BITMAP_LEN && alloced != noswap
    }

    // The bit of a frame in the allocation bitmap.
    ghost predicate Allocated(frame: nat)
      requires Shape() && frame < MEMORY_PAGES
      reads alloced
    {
      FrameBit(alloced, frame)
    }

    ghost predicate Pinned(frame: nat)
      requires Shape() && frame < MEMORY_PAGES
      reads noswap
    {
      FrameBit(noswap, frame)
    }

    ghost function Free(): set<nat>
      requires Shape()
      reads alloced
    {
      set f: nat | f < MEMORY_PAGES && !Allocated(f)
    }

    // The counter is exact and no word below the hint has room.
    ghost predicate Valid()
      reads this, alloced, noswap
    {
      && Shape()
      && ramPagesFree == |Free()|
      && (forall f: nat | f < 32 * first && f < MEMORY_PAGES :: FrameBit(alloced, f))
    }

    constructor ()
      ensures Shape() && fresh(alloced) && fresh(noswap)
      ensures first == 0
    {
      alloced := new Word[BITMAP_LEN];
      noswap := new Word[BITMAP_LEN];
      first := 0;
      ramPages, kernelRamPages, ramPagesFree := 0, 0, 0;
    }

    // memset over whole words.
    static method Fill(a: array<Word>, from: nat, to: nat, value: Word)
      requires from <= to <= a.Length
      modifies a
      ensures forall i | 0 <= i < a.Length :: a[i] == if from <= i < to then value else old(a[i])
    {
      for i := from to to
        invariant forall j | 0 <= j < a.Length :: a[j] == if from <= j < i then value else old(a[j])
      {
        a[i] := value;
      }
    }

    // The last third of init_phys_page_bitmaps: whole words of RAM, then the odd frames at its end.
    method ClearRam(k: nat, p: nat, zeroStart: nat, zeroEnd: nat)
      requires Shape() && p <= MEMORY_PAGES && (k + 31) / 32 == zeroStart < zeroEnd == p / 32
      requires ramPagesFree == 32 * zeroStart - k
      requires forall i | 0 <= i < BITMAP_LEN ::
        alloced[i] == if i == k / 32 && k % 32 != 0 then OnesShiftedRight(32 - k % 32) else ONES
      modifies this`ramPagesFree, alloced, noswap
      ensures ramPagesFree == p - k && Free() == Interval(k, p)
    {
      hide FrameBit;
      ramPagesFree := ramPagesFree + 32 * (zeroEnd - zeroStart);
      Fill(alloced, zeroStart, zeroEnd, ZERO);
      Fill(noswap, zeroStart, zeroEnd, ZERO);
      if p % 32 != 0 {
        ramPagesFree := ramPagesFree + p % 32;
        alloced[p / 32] := OnesShiftedLeft(p % 32);
      }
      InitialBitmap(alloced, k, p);
      assert Free() == Interval(k, p);
    }

    // init_phys_page_bitmaps for a kernel image of k frames (KERNEL_IMAGE_PAGES when memory_init
    // calls it): afterwards exactly the frames from the kernel's end to the end of RAM are
    // free.  Too little RAM is a panic.
    method InitPhysPageBitmaps(memKib: nat, k: nat) returns (ok: bool)
      requires Shape() && first == 0
      requires memKib / (MEMORY_PAGE_SIZE / 1024) <= MEMORY_PAGES && k <= MEMORY_PAGES
      modifies this`ramPages, this`kernelRamPages, this`ramPagesFree, alloced, noswap
      ensures ok <==> (k + 31) / 32 < memKib / (MEMORY_PAGE_SIZE / 1024) / 32
      ensures ok ==> Valid() && ramPages == memKib / (MEMORY_PAGE_SIZE / 1024) && kernelRamPages == k
      ensures ok ==> Free() == Interval(k, ramPages)
    {
      hide FrameBit;
      var p := memKib / (MEMORY_PAGE_SIZE / 1024);
      ramPages := p;
      kernelRamPages := k;
      ramPagesFree := 0;
      var zeroEnd := p / 32;
      Fill(alloced, 0, BITMAP_LEN, ONES);
      Fill(noswap, 0, BITMAP_LEN, ONES);
      var zeroStart := k / 32;
      if k % 32 != 0 {
        ramPagesFree := ramPagesFree + (32 - k % 32);
        alloced[zeroStart] := OnesShiftedRight(32 - k % 32);
        zeroStart := zeroStart + 1;
      }
      if zeroEnd <= zeroStart {
        return false;
      }
      ClearRam(k, p, zeroStart, zeroEnd);
      return true;
    }

    // set_bit on the word that holds a frame's bit.
    static method SetFrameBit(bitmap: array<Word>, frame: nat, value: bool)
      requires bitmap.Length == BITMAP_LEN && frame < MEMORY_PAGES
      modifies bitmap
      ensures forall f: nat | f < MEMORY_PAGES ::
        FrameBit(bitmap, f) == if f == frame then value else old(FrameBit(bitmap, f))
    {
      bitmap[frame / 32] := bitmap[frame / 32][frame % 32 := value];
      forall f: nat | f < MEMORY_PAGES
        ensures FrameBit(bitmap, f) == if f == frame then value else old(FrameBit(bitmap, f))
      {
        assert f == 32 * (f / 32) + f % 32 && frame == 32 * (frame / 32) + frame % 32;
      }
    }

    // alloc_phys_page: the lowest free frame, or 0 after the out-of-memory panic.  The loop's
    // own panic, "failed counting it", is the assert false below.
    method AllocPhysPage(pin: bool) returns (page: nat)
      requires Valid()
      modifies this`first, this`ramPagesFree, alloced, noswap
      ensures Valid()
      ensures old(Free()) == {} ==> page == 0 && Free() == {}
      ensures old(Free()) != {} ==>
        && page in old(Free())
        && (forall f | f in old(Free()) :: page <= f)
        && Free() == old(Free()) - {page}
        && Pinned(page) == pin
      ensures forall f: nat | f < MEMORY_PAGES && (f != page || old(Free()) == {}) :: Pinned(f) == old(Pinned(f))
    {
      page := 0;
      if ramPagesFree == 0 {
        return;
      }
      ghost var was := Free();
      var i := first;
      while i < BITMAP_LEN
        invariant unchanged(this) && unchanged(alloced) && unchanged(noswap)
        invariant forall f: nat | f < 32 * i && f < MEMORY_PAGES :: FrameBit(alloced, f)
      {
        if alloced[i] != ONES {
          var j := 0;
          while j < 32
            invariant j <= 32
            invariant forall k | 0 <= k < j :: alloced[i][k]
            invariant unchanged(this) && unchanged(alloced) && unchanged(noswap)
          {
            if !alloced[i][j] {
              first := i;
              page := i * 32 + j;
              assert page / 32 == i && page % 32 == j;
              forall f | f in was ensures page <= f {
                assert !FrameBit(alloced, f) && 32 * i <= f;
                assert f / 32 == i ==> j <= f % 32;
              }
              ramPagesFree := ramPagesFree - 1;
              SetFrameBit(alloced, page, true);
              SetFrameBit(noswap, page, pin);
              assert Free() == was - {page};
              return;
            }
            j := j + 1;
          }
          assert false;
        }
        forall f: nat | 32 * i <= f < 32 * (i + 1) && f < MEMORY_PAGES ensures FrameBit(alloced, f) {
          assert f / 32 == i;
        }
        i := i + 1;
      }
      assert false;
    }

    // free_phys_page: a frame that is already free is left alone.
    method FreePhysPage(page: nat)
      requires Valid() && page < MEMORY_PAGES
      modifies this`first, this`ramPagesFree, alloced
      ensures Valid()
      ensures Free() == old(Free()) + {page}
    {
      var pos, bit := page / 32, page % 32;
      ghost var was := Free();
      if alloced[pos][bit] {
        ramPagesFree := ramPagesFree + 1;
        SetFrameBit(alloced, page, false);
        if first > pos {
          first := pos;
        }
        assert Free() == was + {page};
      } else {
        assert was + {page} == was;
      }
    }
  }
}
