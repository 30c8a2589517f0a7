/** The boot-time set-up of the page bitmap from the boot loader's memory map. */
module InitMemory {
  import opened Outcomes
  import opened Memory
  import opened KernelMemory

  const AWD_MEMMAP_FREE: int := 0
  /** The region below 4 MiB is never handed out. */
  const RESERVED_PAGES: nat := 0x400

  type uint32 = x: int | 0 <= x < 0x1_0000_0000

  /** One node of the boot loader's list, addresses and sizes split into halves. */
  datatype MemmapEntry = MemmapEntry(typ: int, startHi: uint32, startLo: uint32, sizeHi: uint32, sizeLo: uint32) {
    function Start(): (start: nat)
      ensures start / 0x1_0000_0000 == startHi && start % 0x1_0000_0000 == startLo
    {
      startHi * TWO32 + startLo
    }

    function Size(): (size: nat)
      ensures size / 0x1_0000_0000 == sizeHi && size % 0x1_0000_0000 == sizeLo
    {
      sizeHi * TWO32 + sizeLo
    }

    function End(): nat {
      Start() + Size()
    }

    predicate IsFree() {
      typ == AWD_MEMMAP_FREE
    }
  }

  predicate EntryOk(e: MemmapEntry) {
    e.IsFree() ==> e.Start() % PAGE_SIZE == 0 && e.Size() % PAGE_SIZE == 0 && e.End() < TWO64
  }

  /** The highest end of a free region. */
  function FreeEnd(memmap: seq<MemmapEntry>): (end: nat)
    ensures forall e :: e in memmap && e.IsFree() ==> e.End() <= end
    ensures end == 0 || exists e :: e in memmap && e.IsFree() && e.End() == end
  {
    if memmap == [] then 0 else
      var last := memmap[|memmap| - 1];
      var rest := FreeEnd(memmap[..|memmap| - 1]);
      assert memmap == memmap[..|memmap| - 1] + [last];
      if last.IsFree() && rest < last.End() then last.End() else rest
  }

  /** The page lies in some free region. */
  ghost predicate InFreeRegion(memmap: seq<MemmapEntry>, page: nat) {
    exists e :: e in memmap && PageIn(e, page)
  }

  predicate PageIn(e: MemmapEntry, page: nat) {
    e.IsFree() && e.Start() <= page * PAGE_SIZE < e.End()
  }

  /**
   A page is free exactly when it lies in a free region and at or above 4 MiB, and the counters are the numbers of
   free pages and of all others.
  */
  ghost predicate FramesExact(pmm: Pmm, memmap: seq<MemmapEntry>)
    reads pmm, pmm.bitmap.m_ptr
    ensures FramesExact(pmm, memmap) ==> pmm.Valid() && pmm.m_numPages == FreeEnd(memmap) / 0x1000
  {
    && pmm.Valid() && pmm.m_numPages == FreeEnd(memmap) / 0x1000
    && (forall p :: 0 <= p < pmm.m_numPages ==>
          (pmm.Used()[p] <==> !(InFreeRegion(memmap, p) && p >= RESERVED_PAGES)))
    && pmm.m_maxFreePages == CountFree(pmm.Used())
    && pmm.m_maxFreePages + pmm.m_nonMemoryBackedPages == pmm.m_numPages
  }

  /** Which pages that leaves free, in bytes: those of free regions, from 4 MiB on. */
  lemma FreePagesAre(pmm: Pmm, memmap: seq<MemmapEntry>, p: nat)
    requires FramesExact(pmm, memmap) && p < pmm.m_numPages
    ensures !pmm.Used()[p] <==>
            0x40_0000 <= p * 0x1000 && exists e :: e in memmap && e.typ == 0 && e.Start() <= p * 0x1000 < e.Start() + e.Size()
  {
    if exists e :: e in memmap && e.typ == 0 && e.Start() <= p * 0x1000 < e.Start() + e.Size() {
      var e :| e in memmap && e.typ == 0 && e.Start() <= p * 0x1000 < e.Start() + e.Size();
      assert PageIn(e, p);
    }
  }

  /**
   Two passes over the memory map. Afterwards a page is free exactly when it lies in a free region and at or
   above 4 MiB. The machine stops exactly when the heap has no room for the bitmap or there are fewer than
   1024 pages.
  */
  method Init(pmm: Pmm, heap: Heap, memmap: seq<MemmapEntry>) returns (r: Outcome<()>)
    requires pmm.Valid() && !pmm.m_initialised && pmm.m_nonMemoryBackedPages == 0
    requires heap.currentMode == EarlyBoot && heap.earlyAllocBase + 8 + FreeEnd(memmap) / 0x8000 + 1 < TWO64
    requires forall e :: e in memmap ==> EntryOk(e)
    modifies pmm, heap`earlyAllocBase, pmm.bitmap.m_ptr
    ensures var pages := FreeEnd(memmap) / 0x1000;
            r == if AlignUp(old(heap.earlyAllocBase), 8) + pages / 8 + 1 > heap.earlyAllocLimit then Halted(HeapExhausted)
                 else if pages < 0x400 then Halted(AssertFailed)
                 else Done(())
    ensures r.Done? ==>
              && pmm.m_initialised && FramesExact(pmm, memmap)
              && pmm.bitmapBlock == AlignUp(old(heap.earlyAllocBase), 8) && fresh(pmm.bitmap.m_ptr)
              && heap.earlyAllocBase == pmm.bitmapBlock + FreeEnd(memmap) / 0x1000 / 8 + 1
  {
    var memEndAddress := FindEnd(memmap);
    FreeEndBound(memmap);
    BitmapBytes(memEndAddress);
    var _ :- pmm.Init(memEndAddress / 0x1000, heap);
    FreeRegions(pmm, memmap);
    var done := ReserveLow(pmm);
    if done.Halted? { return done; }
    pmm.SetFreeMemory();
    return Done(());
  }

  lemma BitmapBytes(end: nat)
    ensures end / 0x1000 / 8 == end / 0x8000
  {
  }

  /** Phase 1: discovery. */
  method FindEnd(memmap: seq<MemmapEntry>) returns (memEndAddress: nat)
    ensures memEndAddress == FreeEnd(memmap)
  {
    memEndAddress := 0;
    for i := 0 to |memmap|
      invariant memEndAddress == FreeEnd(memmap[..i])
    {
      assert memmap[..i + 1][..i] == memmap[..i];
      if memmap[i].IsFree() {
        var endAddress := memmap[i].End();
        if memEndAddress < endAddress { memEndAddress := endAddress; }
      }
    }
    assert memmap[..|memmap|] == memmap;
  }

  /** Phase 2: every page of every free region is released. */
  method FreeRegions(pmm: Pmm, memmap: seq<MemmapEntry>)
    requires pmm.Valid()
    requires forall e :: e in memmap ==> EntryOk(e) && (e.IsFree() ==> e.End() <= pmm.m_numPages * PAGE_SIZE)
    modifies pmm.bitmap.m_ptr
    ensures forall p :: 0 <= p < pmm.m_numPages ==>
              (pmm.Used()[p] <==> old(pmm.Used())[p] && !InFreeRegion(memmap, p))
  {
    for i := 0 to |memmap|
      invariant forall p :: 0 <= p < pmm.m_numPages ==>
                  (pmm.Used()[p] <==> old(pmm.Used())[p] && !InFreeRegion(memmap[..i], p))
    {
      FreeRegionStep(memmap, i);
      if memmap[i].IsFree() {
        AlignedSum(memmap[i].Start(), memmap[i].Size());
        FreeRange(pmm, memmap[i].Start(), memmap[i].End());
      }
    }
    assert memmap[..|memmap|] == memmap;
  }

  lemma {:induction false} FreeEndBound(memmap: seq<MemmapEntry>)
    requires forall e :: e in memmap ==> EntryOk(e)
    ensures FreeEnd(memmap) < TWO64 && FreeEnd(memmap) % PAGE_SIZE == 0
    ensures FreeEnd(memmap) == FreeEnd(memmap) / 0x1000 * PAGE_SIZE
    ensures forall e :: e in memmap && e.IsFree() ==> e.End() <= FreeEnd(memmap)
  {
    if FreeEnd(memmap) != 0 {
      var e :| e in memmap && e.IsFree() && e.End() == FreeEnd(memmap);
      assert EntryOk(e);
      AlignedSum(e.Start(), e.Size());
    }
  }

  lemma AlignedSum(a: nat, b: nat)
    requires a % 0x1000 == 0 && b % 0x1000 == 0
    ensures (a + b) % 0x1000 == 0
  {
  }

  lemma FreeRegionStep(memmap: seq<MemmapEntry>, i: nat)
    requires i < |memmap|
    ensures forall p: nat ::
              InFreeRegion(memmap[..i + 1], p) <==> InFreeRegion(memmap[..i], p) || PageIn(memmap[i], p)
  {
    assert memmap[..i + 1] == memmap[..i] + [memmap[i]];
    forall p: nat | PageIn(memmap[i], p) ensures InFreeRegion(memmap[..i + 1], p) {
      assert memmap[i] in memmap[..i + 1];
    }
  }

  /** Frees the pages of [start, end), all of which are managed. */
  method FreeRange(pmm: Pmm, start: nat, end: nat)
    requires pmm.Valid() && start % 0x1000 == 0 && end % 0x1000 == 0 && start <= end <= pmm.m_numPages * 0x1000
    modifies pmm.bitmap.m_ptr
    ensures forall p :: 0 <= p < pmm.m_numPages ==>
              (pmm.Used()[p] <==> old(pmm.Used())[p] && !(start <= p * 0x1000 < end))
  {
    ghost var first, last := start / 0x1000, end / 0x1000;
    var i := start;
    ghost var p := first;
    while i < end
      invariant i == p * 0x1000 && first <= p <= last
      invariant forall q :: 0 <= q < pmm.m_numPages ==>
                  (pmm.Used()[q] <==> old(pmm.Used())[q] && !(first <= q < p))
      decreases last - p
    {
      PageNumber(p);
      var _ := pmm.Free(i);
      i := i + 0x1000;
      p := p + 1;
    }
  }

  /** Marks the region below 4 MiB used. */
  method ReserveLow(pmm: Pmm) returns (r: Outcome<()>)
    requires pmm.Valid()
    modifies pmm.bitmap.m_ptr
    ensures r == if pmm.m_numPages < 0x400 then Halted(AssertFailed) else Done(())
    ensures r.Done? ==> forall p :: 0 <= p < pmm.m_numPages ==>
                          (pmm.Used()[p] <==> old(pmm.Used())[p] || p < 0x400)
  {
    var i := 0;
    ghost var k := 0;
    while i < 0x40_0000
      invariant i == k * 0x1000 && k <= RESERVED_PAGES && k <= pmm.m_numPages
      invariant forall p :: 0 <= p < pmm.m_numPages ==> (pmm.Used()[p] <==> old(pmm.Used())[p] || p < k)
      decreases 0x40_0000 - i
    {
      PageNumber(k);
      var _ :- pmm.Set(i);
      i := i + 0x1000;
      k := k + 1;
    }
    return Done(());
  }

  // ----- the memory report -----

  /** Pages free in one bitmap and used in another. */
  function CountTaken(before: seq<bool>, now: seq<bool>): nat
    requires |before| == |now|
  {
    if before == [] then 0 else
      var n := |before| - 1;
      CountTaken(before[..n], now[..n]) + (if !before[n] && now[n] then 1 else 0)
  }

  lemma {:induction false} CountTakenIs(before: seq<bool>, now: seq<bool>)
    requires |before| == |now|
    ensures CountTaken(before, now) == |set p | 0 <= p < |before| && !before[p] && now[p]|
  {
    if before != [] {
      var n := |before| - 1;
      CountTakenIs(before[..n], now[..n]);
      var all := set p | 0 <= p < n + 1 && !before[p] && now[p];
      var most := set p | 0 <= p < n && !before[..n][p] && now[..n][p];
      assert all == if !before[n] && now[n] then most + {n} else most;
    }
  }

  lemma {:induction false} FreeDifference(before: seq<bool>, now: seq<bool>)
    requires |before| == |now|
    ensures CountFree(before) - CountFree(now) == CountTaken(before, now) - CountTaken(now, before)
  {
    if before != [] {
      FreeDifference(before[..|before| - 1], now[..|before| - 1]);
    }
  }

  lemma {:induction false} NoneTaken(before: seq<bool>, now: seq<bool>)
    requires |before| == |now|
    ensures CountTaken(before, now) == 0 <==> forall p :: 0 <= p < |before| && !before[p] ==> !now[p]
  {
    if before != [] {
      var n := |before| - 1;
      NoneTaken(before[..n], now[..n]);
      assert forall p :: 0 <= p < n ==> before[p] == before[..n][p] && now[p] == now[..n][p];
    }
  }

  /**
   The used count the report prints (all pages, less the free ones, less those not backed at boot) is the number
   of boot-free pages now used exactly when no page reserved at boot has been freed since.
  */
  lemma UsedCountExact(boot: seq<bool>, now: seq<bool>)
    requires |boot| == |now|
    ensures |now| - CountFree(now) - (|boot| - CountFree(boot)) == CountTaken(boot, now) <==>
            forall p :: 0 <= p < |boot| && boot[p] ==> now[p]
  {
    FreeDifference(boot, now);
    NoneTaken(now, boot);
    if forall p :: 0 <= p < |boot| && boot[p] ==> now[p] {
      assert forall p :: 0 <= p < |boot| && !now[p] ==> !boot[p];
    }
  }

  /** One page reserved at boot and freed since: the report says that minus one page is used. */
  lemma ReservedPageFreed()
    ensures var boot, now := [true], [false];
            && |now| - CountFree(now) - (|boot| - CountFree(boot)) == -1
            && CountTaken(boot, now) == 0
  {
    assert CountFree([true][..0]) == 0 && CountFree([false][..0]) == 0;
  }
}
