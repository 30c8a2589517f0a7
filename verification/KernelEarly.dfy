/** The kernel's early boot: the heap taken over from the loader, the first page directory, the frame bitmap. */
module KernelEarly {
  import opened Outcomes
  import opened Memory
  import opened PageTables
  import opened KernelMemory
  import opened AddressSpaces
  import opened KernelRegion
  import opened VirtualMemory
  import opened InitMemory

  /** Where the page directory goes: at the first page boundary of the heap. */
  function DirectoryAt(current: nat): nat {
    AlignUp(current + KERNEL_VMB, 0x1000)
  }

  /** Where the bitmap goes: right after the directory. */
  function BitmapAt(current: nat): nat {
    DirectoryAt(current) + PAGE_SIZE
  }

  /** How the boot ends, from the heap's cursor and limit and the number of frames. */
  function BootResult(current: nat, limit: nat, pages: nat): Outcome<()> {
    if BitmapAt(current) > limit + KERNEL_VMB then Halted(HeapExhausted)
    else if BitmapAt(current) + pages / 8 + 1 > limit + KERNEL_VMB then Halted(HeapExhausted)
    else if pages < 0x400 then Halted(AssertFailed)
    else Done(())
  }

  /**
   kernel_early: after it nothing is mapped, the bitmap marks exactly the frames outside free memory and those below
   4 MiB as used, it lies above the only page table, and the allocator has started to mark frames.
  */
  method KernelEarly(heap: Heap, pmm: Pmm, vmm: Vmm, current: nat, limit: nat, memmap: seq<MemmapEntry>)
    returns (r: Outcome<()>)
    requires vmm.heap == heap && vmm.pmm == pmm && !vmm.m_init
    requires pmm.Valid() && !pmm.m_initialised && pmm.m_nonMemoryBackedPages == 0
    requires current <= limit <= |vmm.mem| <= PHYS_LIMIT && limit + KERNEL_VMB + 2 * PAGE_SIZE < TWO64
    requires limit + KERNEL_VMB + 8 + FreeEnd(memmap) / 0x8000 + 1 < TWO64
    requires forall e :: e in memmap ==> EntryOk(e)
    modifies heap, pmm, vmm, pmm.bitmap.m_ptr
    ensures r == BootResult(current, limit, FreeEnd(memmap) / 0x1000)
    ensures r.Done? ==>
              && vmm.Valid() && vmm.tables.Keys == {Node(4, 0)} && heap.currentMode == Full
              && MapsNothing(vmm.State()) && KernelBacked(vmm.State())
              && FramesExact(pmm, memmap)
              && 0 <= vmm.pdir_kernel - current - 0xFFFF_FFFF_8000_0000 < 0x1000 && vmm.pdir_kernel % 0x1000 == 0
              && pmm.bitmapBlock == vmm.pdir_kernel + 0x1000
              && heap.earlyAllocBase == pmm.bitmapBlock + pmm.m_numPages / 8 + 1
  {
    hide Tree, Leaf, FramesExact, EntryOk, KernelBacked, AlignUp, FreeEnd, MapsNothing, Vmm.Valid;
    heap.EarlyInit(current + KERNEL_VMB, limit + KERNEL_VMB);
    var directory := vmm.Init();
    if directory.Halted? { return directory; }
    assert vmm.pdir_kernel == DirectoryAt(current) && heap.earlyAllocBase == BitmapAt(current);
    PageEnd(vmm.pdir_kernel);
    AlignedAlready(heap.earlyAllocBase);
    assert AlignUp(heap.earlyAllocBase, 8) == BitmapAt(current);
    r := SetUpFrames(heap, pmm, vmm, memmap);
  }

  /** The second half: the bitmap, then the allocator's final mode. The page directory stays as it is. */
  method SetUpFrames(heap: Heap, pmm: Pmm, vmm: Vmm, memmap: seq<MemmapEntry>) returns (r: Outcome<()>)
    requires vmm.heap == heap && vmm.pmm == pmm && vmm.Valid() && heap.currentMode == EarlyBoot
    requires !pmm.m_initialised && pmm.m_nonMemoryBackedPages == 0
    requires MapsNothing(vmm.State())
    requires heap.earlyAllocLimit + 8 + FreeEnd(memmap) / 0x8000 + 1 < TWO64
    requires forall e :: e in memmap ==> EntryOk(e)
    modifies pmm, heap`earlyAllocBase, heap`currentMode, pmm.bitmap.m_ptr
    ensures var pages, start := FreeEnd(memmap) / 0x1000, AlignUp(old(heap.earlyAllocBase), 8);
            && r == (if start + pages / 8 + 1 > heap.earlyAllocLimit then Halted(HeapExhausted)
                     else if pages < 0x400 then Halted(AssertFailed) else Done(()))
            && (r.Done? ==>
                  && vmm.Valid() && heap.currentMode == Full && FramesExact(pmm, memmap)
                  && MapsNothing(vmm.State()) && KernelBacked(vmm.State())
                  && pmm.bitmapBlock == start && heap.earlyAllocBase == start + pages / 8 + 1)
  {
    hide Tree, Leaf, FramesExact, EntryOk, KernelBacked, AlignUp, FreeEnd, MapsNothing;
    ghost var v := vmm.State();
    r := InitMemory.Init(pmm, heap, memmap);
    if r.Halted? { return; }
    heap.InitFull();
    ghost var v' := vmm.State();
    assert v' == v.(base := v'.base, used := v'.used);
    HigherCursor(v, v');
  }

  lemma AlignedAlready(a: nat)
    ensures a % 0x1000 == 0 ==> AlignUp(a, 8) == a
  {
    assert a == 0x1000 * (a / 0x1000) + a % 0x1000;
    if a % 0x1000 == 0 {
      EightDivides(a / 0x1000);
    }
  }

  lemma PageEnd(a: nat)
    ensures a % 0x1000 == 0 ==> (a + 0x1000) % 0x1000 == 0
  {
  }

  lemma EightDivides(q: nat)
    ensures 0x1000 * q % 8 == 0
  {
    assert 0x1000 * q == 8 * (0x200 * q);
  }

  /** A space stays valid when its cursor moves up and its frames change. */
  lemma HigherCursor(v: Space, v': Space)
    requires v.Valid() && v' == v.(base := v'.base, used := v'.used) && v.base <= v'.base <= v'.limit
    requires MapsNothing(v)
    ensures v'.Valid() && KernelBacked(v') && MapsNothing(v')
  {
    hide Tree, Leaf;
    forall vpn: nat ensures v'.LeafAt(vpn) == v.LeafAt(vpn) {
    }
  }
}
