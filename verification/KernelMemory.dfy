/**
 Lobo's physical memory manager and its bump allocator. They call each other: the manager's bitmap
 comes from the allocator, and the allocator marks the pages it grows into as used.
*/
module KernelMemory {
  import opened Outcomes
  import opened Memory
  import opened Bitsets

  /** Where physical address 0 appears in the kernel's address space. */
  const KERNEL_VMB: nat := 0xFFFF_FFFF_8000_0000

  function WrapSub(a: nat, b: nat): (r: nat)
    requires b <= TWO64
    ensures b <= a < TWO64 ==> r == a - b
  {
    (a + TWO64 - b) % TWO64
  }

  function PageBase(a: nat): nat {
    a - a % PAGE_SIZE
  }

  lemma PageBaseOf(a: nat)
    ensures PageBase(a) == 0x1000 * (a / 0x1000)
    ensures KERNEL_VMB <= a < TWO64 ==> WrapSub(PageBase(a), KERNEL_VMB) / PAGE_SIZE == a / 0x1000 - 0xF_FFFF_FFF8_0000
  {
  }

  /** A page number survives the trip through an address, also in 32 bits below 4 GiB. */
  lemma PageNumber(i: nat)
    ensures i * 0x1000 / 0x1000 == i
    ensures i < 0x10_0000 ==> i * 0x1000 % TWO32 == i * 0x1000
  {
  }

  // ----- runs of free pages -----

  /** n pages starting at i exist and are free. A set bit means used. */
  ghost predicate FreeRun(used: seq<bool>, i: nat, n: nat) {
    i + n <= |used| && forall k :: i <= k < i + n ==> !used[k]
  }

  /** The lowest run of n free pages. */
  ghost predicate IsFirstRun(used: seq<bool>, i: nat, n: nat) {
    FreeRun(used, i, n) && forall j: nat :: j < i ==> !FreeRun(used, j, n)
  }

  /** Of the n pages starting at i some is used. */
  ghost predicate SomeUsed(used: seq<bool>, i: nat, n: nat) {
    exists k :: i <= k < i + n && k < |used| && used[k]
  }

  /** A free run is a run that lies within the pages and has no used one. */
  lemma FreeRunIs(used: seq<bool>, i: nat, n: nat)
    ensures FreeRun(used, i, n) <==> i + n <= |used| && !SomeUsed(used, i, n)
  {
  }

  lemma FirstRunIs(used: seq<bool>, i: nat, n: nat)
    requires IsFirstRun(used, i, n)
    ensures i + n <= |used| && forall j: nat :: j < i ==> SomeUsed(used, j, n)
  {
    forall j: nat | j < i ensures SomeUsed(used, j, n) {
      FreeRunIs(used, j, n);
      assert !FreeRun(used, j, n);
    }
  }

  /** The bits after n pages starting at i were marked used. */
  function Filled(used: seq<bool>, i: nat, n: nat): (s: seq<bool>)
    ensures |s| == |used| && forall k :: 0 <= k < |used| ==> (s[k] <==> used[k] || i <= k < i + n)
  {
    seq(|used|, k requires 0 <= k < |used| => used[k] || i <= k < i + n)
  }

  function CountFree(used: seq<bool>): (c: nat)
    ensures c <= |used|
  {
    if used == [] then 0 else CountFree(used[..|used| - 1]) + (if used[|used| - 1] then 0 else 1)
  }

  lemma {:induction false} CountFreeIs(used: seq<bool>)
    ensures CountFree(used) == |set p | 0 <= p < |used| && !used[p]|
  {
    if used != [] {
      var n := |used| - 1;
      CountFreeIs(used[..n]);
      var all := set p | 0 <= p < n + 1 && !used[p];
      var most := set p | 0 <= p < n && !used[..n][p];
      assert all == if used[n] then most else most + {n};
    }
  }

  function PagesWanted(n: nat): nat {
    if n <= 1 then 1 else n
  }

  datatype AllocMode = Uninitialised | EarlyBoot | Full

  class Heap {
    var earlyAllocBase: nat
    var earlyAllocLimit: nat
    var currentMode: AllocMode

    constructor ()
      ensures currentMode == Uninitialised
    {
      earlyAllocBase, earlyAllocLimit, currentMode := 0, 0, Uninitialised;
    }

    method EarlyInit(base: nat, limit: nat)
      modifies this
      ensures earlyAllocBase == base && earlyAllocLimit == limit && currentMode == EarlyBoot
    {
      earlyAllocBase := base;
      earlyAllocLimit := limit;
      currentMode := EarlyBoot;
    }

    method InitFull()
      modifies this`currentMode
      ensures currentMode == Full
    {
      currentMode := Full;
    }

    /** The page the manager is told about when the cursor leaves its page. */
    static function MarkedPage(newBase: nat): nat {
      WrapSub(PageBase(newBase), KERNEL_VMB) / PAGE_SIZE
    }

    static function CrossesPage(oldBase: nat, newBase: nat): bool {
      PageBase(oldBase) != PageBase(newBase)
    }

    /** The outcome of an allocation, from the state before it and the number of managed pages. */
    static function Result(mode: AllocMode, base: nat, limit: nat, pages: nat, sz: nat, alignment: nat): Outcome<nat>
      requires alignment > 0
    {
      var newBase := AlignUp(base, alignment) + sz;
      if mode.Uninitialised? then Halted(HeapDisabled)
      else if newBase > limit then Halted(HeapExhausted)
      else if mode.Full? && CrossesPage(base, newBase) && MarkedPage(newBase) >= pages then Halted(AssertFailed)
      else Done(AlignUp(base, alignment))
    }

    /** The used bits after a successful allocation. */
    static function Marked(mode: AllocMode, base: nat, used: seq<bool>, sz: nat, alignment: nat): (s: seq<bool>)
      requires alignment > 0
      ensures |s| == |used|
      ensures forall k :: 0 <= k < |used| && used[k] ==> s[k]
    {
      var newBase := AlignUp(base, alignment) + sz;
      if mode.Full? && CrossesPage(base, newBase) && MarkedPage(newBase) < |used|
      then used[MarkedPage(newBase) := true] else used
    }

    /** In full mode an allocation that leaves the cursor in another page marks that page, and no other. */
    static lemma MarkedIs(mode: AllocMode, base: nat, used: seq<bool>, sz: nat, alignment: nat)
      requires alignment > 0 && base + alignment + sz < TWO64
      ensures var newBase := AlignUp(base, alignment) + sz;
              KERNEL_VMB <= base ==>
                forall k :: 0 <= k < |used| ==>
                  (Marked(mode, base, used, sz, alignment)[k] <==>
                     || used[k]
                     || (mode == Full && base / 0x1000 != newBase / 0x1000 && k == newBase / 0x1000 - 0xF_FFFF_FFF8_0000))
    {
      PageBaseOf(base);
      PageBaseOf(AlignUp(base, alignment) + sz);
    }

    method KmallocAligned(pmm: Pmm, sz: nat, alignment: nat) returns (r: Outcome<nat>)
      requires alignment > 0 && pmm.bitmap.Valid()
      requires earlyAllocBase + alignment + sz < TWO64
      modifies this`earlyAllocBase, pmm.bitmap.m_ptr
      ensures r == Result(currentMode, old(earlyAllocBase), earlyAllocLimit, pmm.bitmap.m_length, sz, alignment)
      ensures r.Done? ==> earlyAllocBase == r.value + sz
      ensures pmm.bitmap.Bits() == if r.Done? then
          Marked(currentMode, old(earlyAllocBase), old(pmm.bitmap.Bits()), sz, alignment)
        else old(pmm.bitmap.Bits())
      ensures r.Done? ==>
                && currentMode != Uninitialised && old(earlyAllocBase) <= r.value < old(earlyAllocBase) + alignment
                && r.value % alignment == 0 && r.value + sz <= earlyAllocLimit
      ensures r == Halted(HeapExhausted) ==> AlignUp(old(earlyAllocBase), alignment) + sz > earlyAllocLimit
      ensures r.Done? && KERNEL_VMB <= old(earlyAllocBase) ==>
                forall k :: 0 <= k < pmm.bitmap.m_length ==>
                  (pmm.bitmap.Bits()[k] <==>
                     || old(pmm.bitmap.Bits())[k]
                     || (currentMode == Full && old(earlyAllocBase) / 0x1000 != earlyAllocBase / 0x1000
                         && k == earlyAllocBase / 0x1000 - 0xF_FFFF_FFF8_0000))
    {
      MarkedIs(currentMode, earlyAllocBase, pmm.bitmap.Bits(), sz, alignment);
      var oldBase := earlyAllocBase;
      if currentMode == Uninitialised { return Halted(HeapDisabled); }
      if earlyAllocBase % alignment != 0 {
        earlyAllocBase := earlyAllocBase + (alignment - earlyAllocBase % alignment);
      }
      var block := earlyAllocBase;
      var newCurrent := earlyAllocBase + sz;
      if newCurrent > earlyAllocLimit { return Halted(HeapExhausted); }
      if currentMode == Full && PageBase(oldBase) != PageBase(newCurrent) {
        var _ :- pmm.Set(WrapSub(PageBase(newCurrent), KERNEL_VMB));
      }
      earlyAllocBase := newCurrent;
      return Done(block);
    }
  }

  class Pmm {
    var bitmap: Bitset
    var m_initialised: bool
    var m_numPages: nat
    var m_maxFreePages: nat
    var m_nonMemoryBackedPages: nat

    /** Where the heap put the bitmap. */
    ghost var bitmapBlock: nat

    ghost predicate Valid()
      reads this
    {
      bitmap.Valid() && bitmap.m_length == m_numPages
    }

    ghost function Used(): (s: seq<bool>)
      requires Valid()
      reads this, bitmap.m_ptr
      ensures |s| == m_numPages
    {
      bitmap.Bits()
    }

    constructor ()
      ensures Valid() && !m_initialised && m_numPages == 0
      ensures m_maxFreePages == 0 && m_nonMemoryBackedPages == 0
      ensures fresh(bitmap.m_ptr)
    {
      var none := new bv8[0];
      bitmap := new Bitset(none, 0);
      m_initialised, m_numPages, m_maxFreePages, m_nonMemoryBackedPages, bitmapBlock := false, 0, 0, 0, 0;
    }

    method Test(physAddress: nat) returns (r: Outcome<bool>)
      requires bitmap.Valid()
      ensures r == if physAddress / 0x1000 < bitmap.m_length then Done(bitmap.Bits()[physAddress / 0x1000])
                   else Halted(AssertFailed)
    {
      r := bitmap.Test(physAddress / 0x1000);
    }

    method Set(physAddress: nat) returns (r: Outcome<()>)
      requires bitmap.Valid()
      modifies bitmap.m_ptr
      ensures r == if physAddress / 0x1000 < bitmap.m_length then Done(()) else Halted(AssertFailed)
      ensures bitmap.Bits() == if r.Done? then old(bitmap.Bits())[physAddress / 0x1000 := true] else old(bitmap.Bits())
    {
      r := bitmap.Set(physAddress / 0x1000);
    }

    method Free(physAddress: nat) returns (r: Outcome<()>)
      requires bitmap.Valid()
      modifies bitmap.m_ptr
      ensures r == if physAddress / 0x1000 < bitmap.m_length then Done(()) else Halted(AssertFailed)
      ensures bitmap.Bits() == if r.Done? then old(bitmap.Bits())[physAddress / 0x1000 := false] else old(bitmap.Bits())
    {
      r := bitmap.Clear(physAddress / 0x1000);
    }

    /** Takes charge of num pages, all marked used. A second call does nothing. */
    method Init(num: nat, heap: Heap) returns (r: Outcome<()>)
      requires Valid() && heap.earlyAllocBase + 8 + num / 8 + 1 < TWO64
      modifies this, heap`earlyAllocBase, bitmap.m_ptr
      ensures r.Done? ==> Valid() && m_initialised
      ensures r.Done? && old(m_initialised) ==> m_numPages == old(m_numPages) && Used() == old(Used())
      ensures r.Done? && !old(m_initialised) ==>
        fresh(bitmap.m_ptr) && m_numPages == num && forall k :: 0 <= k < num ==> Used()[k]
      ensures r.Done? && !old(m_initialised) ==>
        bitmapBlock == AlignUp(old(heap.earlyAllocBase), 8) && heap.earlyAllocBase == bitmapBlock + num / 8 + 1
      ensures r.Done? && old(m_initialised) ==> heap.earlyAllocBase == old(heap.earlyAllocBase)
      ensures m_maxFreePages == old(m_maxFreePages) && m_nonMemoryBackedPages == old(m_nonMemoryBackedPages)
      ensures r.Halted? <==>
              (&& !old(m_initialised)
               && Heap.Result(heap.currentMode, old(heap.earlyAllocBase), heap.earlyAllocLimit, old(m_numPages),
                              num / 8 + 1, 8).Halted?)
      ensures r.Halted? ==>
                r.why == Heap.Result(heap.currentMode, old(heap.earlyAllocBase), heap.earlyAllocLimit, old(m_numPages),
                                     num / 8 + 1, 8).why
    {
      if m_initialised { return Done(()); }
      m_numPages := num;
      bitmapBlock :- heap.KmallocAligned(this, num / 8 + 1, 8);
      var block := new bv8[num / 8 + 1];
      bitmap := new Bitset(block, num);
      for i := 0 to num
        modifies block
        invariant bitmap.m_ptr == block && bitmap.m_length == num && bitmap.Valid()
        invariant forall k :: 0 <= k < i ==> bitmap.Bits()[k]
      {
        PageNumber(i);
        var _ := Set(i * 0x1000);
      }
      m_initialised := true;
      return Done(());
    }

    /** Are the pages after idx free too? The index and its product with 0x1000 are 32 bits wide. */
    method RestOfRunIsFree(idx: nat, numContiguous: nat) returns (r: Outcome<bool>)
      requires Valid() && idx < m_numPages < 0x10_0000 && !Used()[idx]
      ensures r == Done(true) ==> FreeRun(Used(), idx, PagesWanted(numContiguous))
      ensures r == Done(false) ==> !FreeRun(Used(), idx, PagesWanted(numContiguous))
      ensures r.Halted? ==> r.why == AssertFailed && m_numPages < idx + numContiguous && 1 < numContiguous
      ensures r.Halted? ==> forall k :: idx <= k < m_numPages ==> !Used()[k]
    {
      var checkIndex := (idx + 1) % TWO32;
      while checkIndex < idx + numContiguous
        invariant idx < checkIndex <= m_numPages
        invariant checkIndex <= idx + PagesWanted(numContiguous)
        invariant forall k :: idx <= k < checkIndex ==> !Used()[k]
        decreases idx + numContiguous - checkIndex
      {
        PageNumber(checkIndex);
        // Past the last page the assertion in the bit set stops the machine.
        var isUsed :- Test(checkIndex * 0x1000 % TWO32);
        if isUsed { return Done(false); }
        checkIndex := (checkIndex + 1) % TWO32;
      }
      return Done(true);
    }

    /** Marks a run used, with the same 32-bit index. */
    method MarkRun(idx: nat, numContiguous: nat)
      requires Valid() && idx + numContiguous <= m_numPages < 0x10_0000
      modifies bitmap.m_ptr
      ensures Used() == Filled(old(Used()), idx, numContiguous)
      ensures forall k :: 0 <= k < m_numPages ==> (Used()[k] <==> old(Used())[k] || idx <= k < idx + numContiguous)
    {
      var k := idx % TWO32;
      assert Used() == Filled(old(Used()), idx, 0);
      while k < idx + numContiguous
        invariant idx <= k <= idx + numContiguous
        invariant Used() == Filled(old(Used()), idx, k - idx)
        decreases idx + numContiguous - k
      {
        PageNumber(k);
        var _ := Set(k * 0x1000 % TWO32);
        assert Filled(old(Used()), idx, k - idx)[k := true] == Filled(old(Used()), idx, k + 1 - idx);
        k := (k + 1) % TWO32;
      }
    }

    /**
     First fit: the lowest run of max(1, numContiguous) free pages, found and marked exactly when there is
     one.
    */
    method Allocate(numContiguous: nat) returns (r: Outcome<nat>)
      requires Valid() && m_numPages < 0x10_0000 && m_numPages + numContiguous < TWO64
      modifies bitmap.m_ptr
      ensures r.Done? ==>
                && r.value % 0x1000 == 0
                && IsFirstRun(old(Used()), r.value / 0x1000, PagesWanted(numContiguous))
                && Used() == Filled(old(Used()), r.value / 0x1000, PagesWanted(numContiguous))
      ensures r.Done? ==>
                var i, w := r.value / 0x1000, if numContiguous <= 1 then 1 else numContiguous;
                && i + w <= m_numPages && (forall k :: i <= k < i + w ==> !old(Used())[k])
                && (forall j: nat :: j < i ==> SomeUsed(old(Used()), j, w))
                && (forall k :: 0 <= k < m_numPages ==> (Used()[k] <==> old(Used())[k] || i <= k < i + w))
      ensures r.Halted? <==> forall i: nat :: !FreeRun(old(Used()), i, PagesWanted(numContiguous))
      ensures r.Halted? ==> Used() == old(Used()) && (r.why == FramesExhausted || r.why == AssertFailed)
    {
      var idx := 0;
      while idx < m_numPages
        invariant idx <= m_numPages
        invariant Used() == old(Used())
        invariant forall j: nat :: j < idx ==> !FreeRun(old(Used()), j, PagesWanted(numContiguous))
      {
        var initAddress := idx * 0x1000;
        PageNumber(idx);
        var startUsed := Test(initAddress);
        if startUsed == Done(false) {
          if numContiguous <= 1 {
            var _ := Set(initAddress);
            assert Used() == Filled(old(Used()), idx, 1);
            assert FreeRun(old(Used()), idx, PagesWanted(numContiguous));
            FirstRunIs(old(Used()), idx, PagesWanted(numContiguous));
            return Done(initAddress);
          }
          var allWasFree :- RestOfRunIsFree(idx, numContiguous);
          if allWasFree {
            MarkRun(idx, numContiguous);
            assert FreeRun(old(Used()), idx, PagesWanted(numContiguous));
            FirstRunIs(old(Used()), idx, PagesWanted(numContiguous));
            return Done(initAddress);
          }
        }
        idx := idx + 1;
      }
      return Halted(FramesExhausted);
    }

    /** Counts the free pages; the used ones are added to those not backed by memory. */
    method SetFreeMemory()
      requires Valid()
      modifies this`m_maxFreePages, this`m_nonMemoryBackedPages
      ensures m_maxFreePages == CountFree(Used())
      ensures m_nonMemoryBackedPages == old(m_nonMemoryBackedPages) + m_numPages - CountFree(Used())
    {
      var numFreePages := 0;
      for i := 0 to m_numPages
        invariant numFreePages == CountFree(Used()[..i])
        invariant m_nonMemoryBackedPages == old(m_nonMemoryBackedPages) + i - numFreePages
      {
        assert Used()[..i + 1][..i] == Used()[..i];
        PageNumber(i);
        var isUsed := Test(i * 0x1000);
        if isUsed == Done(false) {
          numFreePages := numFreePages + 1;
        } else {
          m_nonMemoryBackedPages := m_nonMemoryBackedPages + 1;
        }
      }
      assert Used()[..m_numPages] == Used();
      m_maxFreePages := numFreePages;
    }

    /** The number of used pages that the memory report prints. */
    method PagesUsed() returns (pagesUsed: int)
      requires Valid()
      ensures pagesUsed == m_numPages - CountFree(Used()) - m_nonMemoryBackedPages
    {
      var numFreePages := 0;
      for i := 0 to m_numPages
        invariant numFreePages == CountFree(Used()[..i])
      {
        assert Used()[..i + 1][..i] == Used()[..i];
        PageNumber(i);
        var isUsed := Test(i * 0x1000);
        if isUsed == Done(false) {
          numFreePages := numFreePages + 1;
        }
      }
      assert Used()[..m_numPages] == Used();
      pagesUsed := m_numPages - numFreePages - m_nonMemoryBackedPages;
    }
  }
}
