/**
 The kernel region, where the page at KERNEL_VMB + p stands for the frame at p: why allocating frames and
 mapping them there never meets a page that is already present, over any run of calls; and why page tables and
 allocated blocks never overlap.
*/
module KernelRegion {
  import opened Outcomes
  import opened Memory
  import opened PageTables
  import opened PageRanges
  import opened KernelMemory
  import opened AddressSpaces

  /**
   Frame counts up to 2 GiB for which the high mapping of an allocated range of good length never ends inside the
   last page of all: with all of them, only whole pages may be asked for.
  */
  predicate FramesReachable(pages: nat, length: nat) {
    pages < 0x8_0000 || (pages == 0x8_0000 && length % 0x1000 == 0)
  }

  /** Frames were allocated by first fit, and the pages at the matching high addresses map to them. */
  ghost predicate AllocMapped(v: Space, v': Space, length: nat, flags: nat, addr: nat)
    requires v.Valid() && v'.Valid()
  {
    KERNEL_VMB <= addr && (addr - KERNEL_VMB) % PAGE_SIZE == 0 &&
    var p := addr - KERNEL_VMB;
    var vm := v.(used := Filled(v.used, p / PAGE_SIZE, PagesWanted(length / 0x1000)));
    && IsFirstRun(v.used, p / PAGE_SIZE, PagesWanted(length / 0x1000))
    && !NeverEnds(addr, length)
    && Grown(vm, v') && Rewritten(vm, v', addr, PageCount(addr, length), ToFrames(p, flags))
    && RangeUnmapped(v, addr, PageCount(addr, length))
    && v'.tables.Keys == v.tables.Keys + RangeNodes(addr, PageCount(addr, length))
  }

  /** The high page number of a physical page. */
  function KernelPage(f: nat): (v: nat)
    requires f < 0x8_0000
    ensures v < VPN_COUNT
  {
    Vpn(KERNEL_VMB + f * PAGE_SIZE)
  }

  /** Every page mapped in the kernel region has the frame it stands for marked used. */
  ghost predicate KernelBacked(v: Space)
    requires v.Valid()
  {
    forall f: nat :: f < 0x8_0000 && Present(v.LeafAt(KernelPage(f))) ==> f < |v.used| && v.used[f]
  }

  /** Lengths for which as many pages are allocated as are mapped. */
  predicate LengthOk(length: nat) {
    length % 0x1000 == 0 || length < 0x1000
  }

  lemma PagesMappedAndAllocated(addr: nat, length: nat)
    requires addr < TWO64 && length < TWO64
    ensures LengthOk(length) ==> PageCount(addr, length) <= PagesWanted(length / 0x1000)
    ensures !LengthOk(length) && addr + length < TWO64 ==> PageCount(addr, length) == PagesWanted(length / 0x1000) + 1
    ensures addr + length >= TWO64 ==> PageCount(addr, length) == 0
    ensures PageCount(addr, length) <= PagesWanted(length / 0x1000) + 1
  {
  }

  /** A range of frames that exist has an address and a length that fit in 64 bits. */
  lemma RunFits(i: nat, length: nat, pages: nat)
    requires i + PagesWanted(length / 0x1000) <= pages <= 0x8_0000
    ensures KERNEL_VMB + i * PAGE_SIZE < TWO64 && length < TWO32
    ensures var addr := KERNEL_VMB + i * PAGE_SIZE;
            !NeverEnds(addr, length) && addr + length < TWO64 ==> addr + PageCount(addr, length) * PAGE_SIZE < TWO64
  {
  }

  lemma KernelPageOffset(i: nat, f: nat)
    requires i < 0x8_0000 && f < 0x8_0000
    ensures PageOffset(KERNEL_VMB + i * PAGE_SIZE, KernelPage(f)) == if i <= f then f - i else VPN_COUNT - (i - f)
  {
    HighPage(i);
    HighPage(f);
  }

  lemma HighPage(i: nat)
    requires i < 0x8_0000
    ensures (0xFFFF_FFFF_8000_0000 + i * 0x1000) / 0x1000 == 0xF_FFFF_FFF8_0000 + i
    ensures (0xF_FFFF_FFF8_0000 + i) % 0x10_0000_0000 == 0xF_FFF8_0000 + i
  {
    assert 0xF_FFFF_FFF8_0000 + i == 0x10_0000_0000 * 0xFFFF + (0xF_FFF8_0000 + i);
  }

  /** In such a state, no run of free frames is already mapped, so mapping it cannot stop on a present page. */
  lemma FreeRunsAreUnmapped(v: Space, i: nat, w: nat, n: nat)
    requires v.Valid() && KernelBacked(v) && FreeRun(v.used, i, w) && n <= w && |v.used| <= 0x8_0000 && i < |v.used|
    ensures RangeUnmapped(v, KERNEL_VMB + i * PAGE_SIZE, n)
  {
    hide Tree, Leaf, KernelPage, PageOffset, PageAt;
    forall vpn: nat | vpn < VPN_COUNT && PageOffset(KERNEL_VMB + i * PAGE_SIZE, vpn) < n
      ensures !Present(v.LeafAt(vpn))
    {
      var d := PageOffset(KERNEL_VMB + i * PAGE_SIZE, vpn);
      KernelPageOffset(i, i + d);
      PageAtOffset(KERNEL_VMB + i * PAGE_SIZE, d, vpn);
      PageAtOffset(KERNEL_VMB + i * PAGE_SIZE, d, KernelPage(i + d));
      assert vpn == KernelPage(i + d);
    }
  }

  lemma LeafWordPresent(p: nat, d: nat, flags: nat)
    requires p % 0x1000 == 0
    ensures Present(LeafWord(ToFrames(p, flags), d)) <==> flags % 2 == 1
  {
    CursorPage(p, d);
    EvenPages(Cursor(p, d), flags);
  }

  lemma EvenPages(a: nat, flags: nat)
    requires a % 0x1000 == 0
    ensures (a + flags) % 2 == flags % 2
  {
    assert a == 2 * (0x800 * (a / 0x1000));
    EvenPlus(0x800 * (a / 0x1000), flags);
  }

  lemma EvenPlus(m: nat, n: nat)
    ensures (2 * m + n) % 2 == n % 2
  {
  }

  /** Where the pages of an allocated range lie in the kernel region. */
  lemma AllocatedPage(v: Space, v': Space, length: nat, flags: nat, addr: nat, f: nat)
    requires v.Valid() && v'.Valid() && AllocMapped(v, v', length, flags, addr)
    requires |v.used| <= 0x8_0000 && f < 0x8_0000
    ensures var i := (addr - KERNEL_VMB) / PAGE_SIZE;
            i <= |v.used| && v'.LeafAt(KernelPage(f)) ==
              if i <= f < i + PageCount(addr, length) then LeafWord(ToFrames(addr - KERNEL_VMB, flags), f - i)
              else v.LeafAt(KernelPage(f))
  {
    hide Tree, Grown, Leaf, RangeUnmapped;
    var i := (addr - KERNEL_VMB) / PAGE_SIZE;
    assert addr == KERNEL_VMB + i * PAGE_SIZE;
    assert FreeRun(v.used, i, PagesWanted(length / 0x1000));
    RunFits(i, length, |v.used|);
    PagesMappedAndAllocated(addr, length);
    KernelPageOffset(i, f);
  }

  /** Allocation only ever adds used pages, and the run allocated is used afterwards. */
  lemma AllocatedUsed(v: Space, v': Space, length: nat, flags: nat, addr: nat, f: nat)
    requires v.Valid() && v'.Valid() && AllocMapped(v, v', length, flags, addr)
    requires f < |v.used|
    ensures |v'.used| == |v.used|
    ensures var i := (addr - KERNEL_VMB) / PAGE_SIZE;
            v.used[f] || i <= f < i + PagesWanted(length / 0x1000) ==> v'.used[f]
  {
    hide Tree, Leaf, RangeUnmapped, Rewritten, OutsideTables;
  }

  /**
   A call that allocates and maps keeps every kernel-region page backed exactly when it allocates a frame for
   each page it maps, or the one page more that it maps happens to stand for a used frame.
  */
  lemma BackedAfterAllocIff(v: Space, v': Space, length: nat, flags: nat, addr: nat)
    requires v.Valid() && v'.Valid() && AllocMapped(v, v', length, flags, addr) && KernelBacked(v)
    requires |v.used| <= 0x8_0000
    ensures var f := (addr - KERNEL_VMB) / PAGE_SIZE + PagesWanted(length / 0x1000);
            KernelBacked(v') <==>
              (LengthOk(length) || PageCount(addr, length) == 0 || flags % 2 == 0 || (f < |v'.used| && v'.used[f]))
  {
    hide Tree, Grown, Leaf, RangeUnmapped, Rewritten, AllocMapped, PageCount;
    var i := (addr - KERNEL_VMB) / PAGE_SIZE;
    var w := PagesWanted(length / 0x1000);
    AllocMappedFacts(v, v', length, flags, addr);
    RunFits(i, length, |v.used|);
    PagesMappedAndAllocated(addr, length);
    forall f: nat | f < 0x8_0000
      ensures i <= f < i + PageCount(addr, length) ==> (Present(v'.LeafAt(KernelPage(f))) <==> flags % 2 == 1)
      ensures !(i <= f < i + PageCount(addr, length)) ==> v'.LeafAt(KernelPage(f)) == v.LeafAt(KernelPage(f))
      ensures f < |v.used| && (v.used[f] || i <= f < i + w) ==> v'.used[f]
    {
      AllocatedPage(v, v', length, flags, addr, f);
      if i <= f { LeafWordPresent(addr - KERNEL_VMB, f - i, flags); }
      if f < |v.used| { AllocatedUsed(v, v', length, flags, addr, f); }
    }
    if !LengthOk(length) && PageCount(addr, length) > 0 && flags % 2 == 1 {
      assert i + w < 0x8_0000;
      assert Present(v'.LeafAt(KernelPage(i + w)));
    }
  }

  lemma AllocMappedFacts(v: Space, v': Space, length: nat, flags: nat, addr: nat)
    requires v.Valid() && v'.Valid() && AllocMapped(v, v', length, flags, addr)
    ensures |v'.used| == |v.used| && KERNEL_VMB <= addr && (addr - KERNEL_VMB) % PAGE_SIZE == 0
    ensures (addr - KERNEL_VMB) / PAGE_SIZE + PagesWanted(length / 0x1000) <= |v.used|
    ensures addr == KERNEL_VMB + (addr - KERNEL_VMB) / PAGE_SIZE * PAGE_SIZE && !NeverEnds(addr, length)
  {
  }

  lemma FirstRunUnmapped(v: Space, length: nat, i: nat)
    requires v.Valid() && KernelBacked(v) && |v.used| <= 0x8_0000 && LengthOk(length)
    requires IsFirstRun(v.used, i, PagesWanted(length / 0x1000))
    ensures RangeUnmapped(v, KERNEL_VMB + i * PAGE_SIZE, PageCount(KERNEL_VMB + i * PAGE_SIZE, length))
  {
    hide Tree, Leaf, RangeUnmapped;
    RunFits(i, length, |v.used|);
    PagesMappedAndAllocated(KERNEL_VMB + i * PAGE_SIZE, length);
    FreeRunsAreUnmapped(v, i, PagesWanted(length / 0x1000), PageCount(KERNEL_VMB + i * PAGE_SIZE, length));
  }

  /**
   Why an allocating call stops when the allocator's only reason to is its limit: there is no run of free frames,
   or the first one is mapped without end, is mapped already, or leaves no room for its tables.
  */
  ghost predicate AllocStops(v: Space, why: Halt, length: nat)
    requires v.Valid()
  {
    || ((why == FramesExhausted || why == AssertFailed) && forall i: nat :: !FreeRun(v.used, i, PagesWanted(length / 0x1000)))
    || exists i: nat :: IsFirstRun(v.used, i, PagesWanted(length / 0x1000)) && RunStops(v, why, length, i)
  }

  ghost predicate RunStops(v: Space, why: Halt, length: nat, i: nat)
    requires v.Valid()
  {
    var addr := KERNEL_VMB + i * PAGE_SIZE;
    || NeverEnds(addr, length)
    || (why == Remapped && !RangeUnmapped(v, addr, PageCount(addr, length)))
    || (why == HeapExhausted && NoRoom(v, RangeNodes(addr, PageCount(addr, length))))
  }

  // ----- runs -----

  datatype Op =
    | MapAnywhere(length: nat, flags: nat, addr: nat)
    | MapFixed(addr: nat, p: nat, length: nat, flags: nat)
    | UnmapRange(addr: nat, length: nat)
    | Kmalloc(mode: AllocMode, sz: nat, alignment: nat)

  predicate OpOk(op: Op) {
    op.Kmalloc? ==> op.alignment > 0
  }

  /** Calls that leave the choice of frames to the allocator, with a good length, and calls that map nothing. */
  predicate LeavesFramesToAllocator(op: Op) {
    match op
    case MapAnywhere(length, _, _) => LengthOk(length)
    case MapFixed(_, _, _, _) => false
    case UnmapRange(_, _) => true
    case Kmalloc(_, _, _) => true
  }

  /**
   One call that returned: mapping freshly allocated frames or chosen ones, unmapping any range, or taking heap
   memory.
  */
  ghost predicate Step(v: Space, op: Op, v': Space)
    requires v.Valid() && v'.Valid() && OpOk(op)
  {
    match op
    case MapAnywhere(length, flags, addr) => AllocMapped(v, v', length, flags, addr)
    case MapFixed(addr, p, length, flags) => DirectMapped(v, v', addr, p, length, flags)
    case UnmapRange(addr, length) => Unmapped(v, v', addr, length)
    case Kmalloc(mode, sz, alignment) =>
      var base := v.base + KERNEL_VMB;
      v' == v.(base := AlignUp(base, alignment) + sz - KERNEL_VMB,
               used := Heap.Marked(mode, base, v.used, sz, alignment))
  }

  /** A finite run of calls. */
  ghost predicate Run(trace: seq<Space>, ops: seq<Op>) {
    && |trace| == |ops| + 1
    && (forall k :: 0 <= k < |trace| ==> trace[k].Valid())
    && (forall k :: 0 <= k < |ops| ==> OpOk(ops[k]))
    && (forall k :: 0 <= k < |ops| ==> Step(trace[k], ops[k], trace[k + 1]))
  }

  lemma StepKeepsBacked(v: Space, op: Op, v': Space)
    requires v.Valid() && v'.Valid() && OpOk(op) && Step(v, op, v')
    requires KernelBacked(v) && |v.used| <= 0x8_0000 && LeavesFramesToAllocator(op)
    ensures KernelBacked(v') && |v'.used| == |v.used|
  {
    match op
    case MapFixed(_, _, _, _) => assert false;
    case MapAnywhere(length, flags, addr) => AllocKeepsBacked(v, v', length, flags, addr);
    case UnmapRange(addr, length) => UnmapKeepsBacked(v, v', addr, length);
    case Kmalloc(mode, sz, alignment) => UsedGrows(v, v');
  }

  lemma AllocKeepsBacked(v: Space, v': Space, length: nat, flags: nat, addr: nat)
    requires v.Valid() && v'.Valid() && AllocMapped(v, v', length, flags, addr) && KernelBacked(v)
    requires |v.used| <= 0x8_0000 && LengthOk(length)
    ensures KernelBacked(v') && |v'.used| == |v.used|
  {
    hide Tree, Grown, Leaf, RangeUnmapped, Rewritten, AllocMapped;
    AllocMappedFacts(v, v', length, flags, addr);
    RunFits((addr - KERNEL_VMB) / PAGE_SIZE, length, |v.used|);
    PagesMappedAndAllocated(addr, length);
    forall f: nat | f < 0x8_0000 && Present(v'.LeafAt(KernelPage(f)))
      ensures f < |v'.used| && v'.used[f]
    {
      AllocatedPage(v, v', length, flags, addr, f);
      if f < |v.used| { AllocatedUsed(v, v', length, flags, addr, f); }
    }
  }

  lemma UnmapKeepsBacked(v: Space, v': Space, addr: nat, length: nat)
    requires v.Valid() && v'.Valid() && Unmapped(v, v', addr, length) && KernelBacked(v)
    ensures KernelBacked(v') && |v'.used| == |v.used|
  {
    hide Tree, Leaf, OutsideTables, RangeNodes, BaseAfter, PageCount, PageOffset, KernelPage;
    forall f: nat | f < 0x8_0000 && Present(v'.LeafAt(KernelPage(f)))
      ensures f < |v'.used| && v'.used[f]
    {
      assert v'.LeafAt(KernelPage(f)) == v.LeafAt(KernelPage(f));
    }
  }

  lemma UsedGrows(v: Space, v': Space)
    requires v.Valid() && v'.Valid() && v'.mem == v.mem && v'.tables == v.tables && |v'.used| == |v.used|
    requires forall k :: 0 <= k < |v.used| && v.used[k] ==> v'.used[k]
    requires KernelBacked(v)
    ensures KernelBacked(v')
  {
    hide Tree, Leaf;
    forall f: nat | f < 0x8_0000 && Present(v'.LeafAt(KernelPage(f)))
      ensures f < |v'.used| && v'.used[f]
    {
      assert v'.LeafAt(KernelPage(f)) == v.LeafAt(KernelPage(f));
    }
  }

  lemma {:induction false} RunKeepsBacked(trace: seq<Space>, ops: seq<Op>, k: nat)
    requires Run(trace, ops) && k < |trace| && forall i :: 0 <= i < |ops| ==> LeavesFramesToAllocator(ops[i])
    requires KernelBacked(trace[0]) && |trace[0].used| <= 0x8_0000
    ensures KernelBacked(trace[k]) && |trace[k].used| == |trace[0].used|
  {
    hide Step, KernelBacked, LeavesFramesToAllocator;
    if k > 0 {
      RunKeepsBacked(trace, ops, k - 1);
      StepKeepsBacked(trace[k - 1], ops[k - 1], trace[k]);
    }
  }

  /**
   The remap panic is out of reach: in every state of every run that starts with nothing mapped, the frames the
   next allocation would return are mapped nowhere in the kernel region.
  */
  lemma RemapUnreachable(trace: seq<Space>, ops: seq<Op>, k: nat, length: nat, i: nat)
    requires Run(trace, ops) && k < |trace| && forall i :: 0 <= i < |ops| ==> LeavesFramesToAllocator(ops[i])
    requires |trace[0].used| <= 0x8_0000
    requires forall vpn: nat :: !Present(trace[0].LeafAt(vpn))
    requires LengthOk(length) && IsFirstRun(trace[k].used, i, PagesWanted(length / 0x1000))
    ensures RangeUnmapped(trace[k], KERNEL_VMB + i * PAGE_SIZE, PageCount(KERNEL_VMB + i * PAGE_SIZE, length))
    ensures |trace[0].used| < 0x8_0000 || length % 0x1000 == 0 ==> !NeverEnds(KERNEL_VMB + i * PAGE_SIZE, length)
  {
    hide Step, Run, Tree, Leaf, RangeUnmapped;
    RunValid(trace, ops, k);
    RunKeepsBacked(trace, ops, k);
    FirstRunUnmapped(trace[k], length, i);
    GoodLengthEnds(|trace[k].used|, i, length);
  }

  /** Below 2 GiB a good length never ends inside the last page of all, unless it is that page's frame. */
  lemma GoodLengthEnds(pages: nat, i: nat, length: nat)
    requires i + PagesWanted(length / 0x1000) <= pages && LengthOk(length)
    ensures FramesReachable(pages, length) ==> !NeverEnds(KERNEL_VMB + i * PAGE_SIZE, length)
  {
  }

  /** The frame just below 2 GiB is the exception: a length within one page maps its page and goes on for ever. */
  lemma LastFrameNeverEnds(length: nat)
    requires 0 < length < 0x1000
    ensures LengthOk(length) && NeverEnds(KERNEL_VMB + 0x7_FFFF * PAGE_SIZE, length)
  {
  }

  // ----- who owns which memory, over runs -----

  /** From one state to a later one the cursor only moves up, tables stay, and new ones lie beyond the old cursor. */
  ghost predicate Later(v: Space, v': Space) {
    && v'.base >= v.base
    && (forall n :: n in v.tables ==> n in v'.tables && v'.tables[n] == v.tables[n])
    && (forall n :: n in v'.tables && n !in v.tables ==> v'.tables[n] >= v.base)
  }

  lemma StepIsLater(v: Space, op: Op, v': Space)
    requires v.Valid() && v'.Valid() && OpOk(op) && Step(v, op, v')
    ensures Later(v, v')
  {
    hide Tree, Leaf, Rewritten, RangeUnmapped, OutsideTables, Grown, RangeNodes, PageCount, IsFirstRun;
    match op
    case MapAnywhere(length, flags, addr) =>
      GrownIsLater(v.(used := Filled(v.used, (addr - KERNEL_VMB) / PAGE_SIZE, PagesWanted(length / 0x1000))), v');
    case MapFixed(addr, p, length, flags) => GrownIsLater(v, v');
    case UnmapRange(addr, length) => GrownIsLater(v, v');
    case Kmalloc(mode, sz, alignment) =>
  }

  lemma GrownIsLater(v: Space, v': Space)
    requires Grown(v, v')
    ensures Later(v, v')
  {
  }

  lemma LaterTransitive(a: Space, b: Space, c: Space)
    requires Later(a, b) && Later(b, c)
    ensures Later(a, c)
  {
    forall n | n in c.tables && n !in a.tables ensures c.tables[n] >= a.base {
      if n in b.tables { assert c.tables[n] == b.tables[n]; }
    }
  }

  lemma {:induction false} RunIsLater(trace: seq<Space>, ops: seq<Op>, i: nat, j: nat)
    requires Run(trace, ops) && i <= j < |trace|
    ensures Later(trace[i], trace[j])
    decreases j
  {
    hide Step, Later;
    if i < j {
      RunIsLater(trace, ops, i, j - 1);
      StepIsLater(trace[j - 1], ops[j - 1], trace[j]);
      LaterTransitive(trace[i], trace[j - 1], trace[j]);
    } else {
      LaterItself(trace[i]);
    }
  }

  lemma LaterItself(v: Space)
    ensures Later(v, v)
  {
  }

  /**
   Ownership over every run: a block handed out by the allocator at step k overlaps no page table of any state,
   earlier or later.
  */
  lemma BlocksApartFromTables(trace: seq<Space>, ops: seq<Op>, k: nat, j: nat, n: Node)
    requires Run(trace, ops) && k < |ops| && ops[k].Kmalloc?
    requires j < |trace| && n in trace[j].tables
    ensures var block := AlignUp(trace[k].base + KERNEL_VMB, ops[k].alignment) - KERNEL_VMB;
            trace[j].tables[n] + PAGE_SIZE <= block || block + ops[k].sz <= trace[j].tables[n]
  {
    hide Tree;
    var v, v' := trace[k], trace[k + 1];
    assert Step(v, ops[k], v');
    assert trace[j].Valid() && v.Valid();
    if j <= k {
      RunIsLater(trace, ops, j, k);
    } else {
      RunIsLater(trace, ops, k + 1, j);
    }
  }

  lemma RunValid(trace: seq<Space>, ops: seq<Op>, k: nat)
    requires Run(trace, ops) && k < |trace|
    ensures trace[k].Valid() && trace[0].Valid() && |trace| == |ops| + 1
  {
  }
}
