/** A mapping tied to the lifetime of an object: made by its constructor, undone by its destructor. */
module Memmaps {
  import opened Outcomes
  import opened Memory
  import opened PageTables
  import opened PageRanges
  import opened KernelMemory
  import opened AddressSpaces
  import opened VmmTheorems
  import opened KernelRegion
  import opened VirtualMemory

  class Memmap {
    const vmm: Vmm
    var m_ram_backed: bool
    var addr: nat
    var sz: nat

    constructor (vmm: Vmm, addr: nat, sz: nat, ramBacked: bool)
      ensures this.vmm == vmm && this.addr == addr && this.sz == sz && m_ram_backed == ramBacked
    {
      this.vmm, this.addr, this.sz, m_ram_backed := vmm, addr, sz, ramBacked;
    }

    /** The constructor that picks frames and an address. */
    static method Allocate(vmm: Vmm, size: nat, perm: int, flags: nat) returns (r: Outcome<Memmap>)
      requires vmm.Valid() && size < TWO64 && vmm.pmm.m_numPages <= 0x8_0000 && Target(0, flags).Anywhere?
      modifies vmm`mem, vmm`tables, vmm`pdir_current, vmm.heap`earlyAllocBase, vmm.pmm.bitmap.m_ptr
      ensures vmm.pmm.Valid()
      ensures r.Done? ==>
                && vmm.Valid() && fresh(r.value) && r.value.vmm == vmm && r.value.sz == size && r.value.m_ram_backed
                && AllocMapped(old(vmm.State()), vmm.State(), size, perm % 0x100, r.value.addr)
    {
      hide Tree, Grown, Leaf, AllocMapped, DirectMapped;
      var virtAddr :- vmm.Map(0, size, perm, flags);
      var m := new Memmap(vmm, virtAddr, size, true);
      return Done(m);
    }

    /** The constructor that is given an address, virtual or physical as the flags say. */
    static method At(vmm: Vmm, address: nat, size: nat, perm: int, flags: nat) returns (r: Outcome<Memmap>)
      requires vmm.Valid() && address < TWO64 && size < TWO64
      requires var t := Target(address, flags);
               t.Fixed? && RangeOk(t.l_addr, size) && RewriteOk(ToFrames(t.p_addr, perm % 0x100))
      modifies vmm`mem, vmm`tables, vmm`pdir_current, vmm.heap`earlyAllocBase, vmm.pmm.bitmap.m_ptr
      ensures vmm.pmm.Valid()
      ensures r.Done? ==>
                && vmm.Valid() && fresh(r.value) && r.value.vmm == vmm && r.value.sz == size && r.value.m_ram_backed
                && r.value.addr == Target(address, flags).l_addr
                && DirectMapped(old(vmm.State()), vmm.State(), r.value.addr, Target(address, flags).p_addr, size,
                                perm % 0x100)
    {
      hide Tree, Grown, Leaf, AllocMapped, DirectMapped, RangeOk, RewriteOk, PageCount;
      var virtAddr :- vmm.Map(address, size, perm, flags);
      var m := new Memmap(vmm, virtAddr, size, true);
      return Done(m);
    }

    /** The constructor that maps v_addr to p_addr. */
    static method Direct(vmm: Vmm, p_addr: nat, v_addr: nat, size: nat, perm: int, flags: nat)
      returns (r: Outcome<Memmap>)
      requires vmm.Valid() && RangeOk(v_addr, size)
      requires RewriteOk(ToFrames(p_addr, perm % 0x100))
      modifies vmm`mem, vmm`tables, vmm`pdir_current, vmm.heap`earlyAllocBase, vmm.pmm.bitmap.m_ptr
      ensures vmm.pmm.Valid()
      ensures r.Done? ==>
                && vmm.Valid() && fresh(r.value) && r.value.vmm == vmm
                && r.value.addr == v_addr && r.value.sz == size && !r.value.m_ram_backed
                && DirectMapped(old(vmm.State()), vmm.State(), v_addr, p_addr, size, perm % 0x100)
    {
      hide Tree, Grown, Leaf, DirectMapped;
      var _ :- vmm.MapDirect(v_addr, p_addr, size, perm, flags);
      var m := new Memmap(vmm, v_addr, size, false);
      return Done(m);
    }

    /** The destructor. It cannot stop the machine while the tables its mapping needed are there. */
    method Destroy() returns (r: Outcome<()>)
      requires vmm.Valid() && RangeOk(addr, sz)
      modifies vmm`mem, vmm`tables, vmm`pdir_current, vmm.heap`earlyAllocBase, vmm.pmm.bitmap.m_ptr
      ensures vmm.pmm.Valid()
      ensures r.Done? ==> vmm.Valid() && Unmapped(old(vmm.State()), vmm.State(), addr, sz)
      ensures !NeverEnds(addr, sz) && RangeNodes(addr, PageCount(addr, sz)) <= old(vmm.tables).Keys ==> r.Done?
    {
      hide Tree, Grown, Leaf, Unmapped;
      r := vmm.Unmap(addr, sz);
    }

    /**
     A whole lifetime of a mapping of chosen frames: once the constructor returns the destructor cannot fail, every
     address translates as it did before, and the range is free to be mapped again.
    */
    static method Lifetime(vmm: Vmm, p_addr: nat, v_addr: nat, size: nat, perm: int, flags: nat)
      returns (constructed: bool, destroyed: bool)
      requires vmm.Valid() && RangeOk(v_addr, size)
      requires RewriteOk(ToFrames(p_addr, perm % 0x100))
      modifies vmm`mem, vmm`tables, vmm`pdir_current, vmm.heap`earlyAllocBase, vmm.pmm.bitmap.m_ptr
      ensures destroyed <==> constructed
      ensures constructed ==> vmm.Valid() && Undone(old(vmm.State()), vmm.State(), v_addr, size)
    {
      hide Tree, Grown, Leaf, DirectMapped, Unmapped, RangeNodes, PageCount, RangeOk, RewriteOk, NeverEnds, Undone;
      ghost var v := vmm.State();
      var m := Direct(vmm, p_addr, v_addr, size, perm, flags);
      if m.Halted? { return false, false; }
      ghost var v1 := vmm.State();
      DirectTables(v, v1, v_addr, p_addr, size, perm % 0x100);
      var done := m.value.Destroy();
      DirectUndone(v, v1, vmm.State(), v_addr, p_addr, size, perm % 0x100);
      return true, done.Done?;
    }

    /** The same for the constructor that is given one address. */
    static method LifetimeAt(vmm: Vmm, address: nat, size: nat, perm: int, flags: nat)
      returns (constructed: bool, destroyed: bool)
      requires vmm.Valid() && address < TWO64 && size < TWO64
      requires var t := Target(address, flags);
               t.Fixed? && RangeOk(t.l_addr, size) && RewriteOk(ToFrames(t.p_addr, perm % 0x100))
      modifies vmm`mem, vmm`tables, vmm`pdir_current, vmm.heap`earlyAllocBase, vmm.pmm.bitmap.m_ptr
      ensures destroyed <==> constructed
      ensures constructed ==> vmm.Valid() && Undone(old(vmm.State()), vmm.State(), Target(address, flags).l_addr, size)
    {
      hide Tree, Grown, Leaf, DirectMapped, Unmapped, RangeNodes, PageCount, RangeOk, RewriteOk, NeverEnds, Undone;
      ghost var v, t := vmm.State(), Target(address, flags);
      var m := At(vmm, address, size, perm, flags);
      if m.Halted? { return false, false; }
      ghost var v1 := vmm.State();
      DirectTables(v, v1, t.l_addr, t.p_addr, size, perm % 0x100);
      var done := m.value.Destroy();
      DirectUndone(v, v1, vmm.State(), t.l_addr, t.p_addr, size, perm % 0x100);
      return true, done.Done?;
    }

    /** The same for the constructor that takes frames; the frames themselves stay used. */
    static method LifetimeAnywhere(vmm: Vmm, size: nat, perm: int, flags: nat)
      returns (constructed: bool, destroyed: bool, addr: nat)
      requires vmm.Valid() && size < TWO64 && vmm.pmm.m_numPages <= 0x8_0000 && Target(0, flags).Anywhere?
      modifies vmm`mem, vmm`tables, vmm`pdir_current, vmm.heap`earlyAllocBase, vmm.pmm.bitmap.m_ptr
      ensures destroyed <==> constructed
      ensures constructed ==>
                && vmm.Valid() && Undone(old(vmm.State()), vmm.State(), addr, size)
                && FramesTaken(old(vmm.State()), vmm.State(), addr, size)
    {
      hide Tree, Grown, Leaf, AllocMapped, DirectMapped, Unmapped, RangeNodes, PageCount, RangeOk, RewriteOk, NeverEnds,
        Undone, FramesTaken;
      ghost var v := vmm.State();
      var m := Allocate(vmm, size, perm, flags);
      if m.Halted? { return false, false, 0; }
      addr := m.value.addr;
      ghost var v1 := vmm.State();
      AllocIsDirect(v, v1, addr, size, perm % 0x100);
      AllocRangeOk(v, v1, addr, size, perm % 0x100);
      ghost var vm := v.(used := Filled(v.used, (addr - KERNEL_VMB) / PAGE_SIZE, PagesWanted(size / 0x1000)));
      DirectTables(vm, v1, addr, addr - KERNEL_VMB, size, perm % 0x100);
      var done := m.value.Destroy();
      ghost var v2 := vmm.State();
      DirectUndone(vm, v1, v2, addr, addr - KERNEL_VMB, size, perm % 0x100);
      UndoneFrom(v, vm, v2, addr, size);
      FramesStay(v, v1, v2, addr, size, perm % 0x100);
      return true, done.Done?, addr;
    }
  }

  /** Every address translates as before, and the range is free to be mapped again. */
  ghost predicate Undone(v: Space, v': Space, addr: nat, length: nat)
    requires v.Valid() && v'.Valid()
  {
    && RangeUnmapped(v', addr, PageCount(addr, length))
    && forall va: nat :: Walk(v', va) == Walk(v, va)
  }

  /** The frames behind a kernel address were free and are used now; no other frame is, but those the heap grew into. */
  ghost predicate FramesTaken(v: Space, v': Space, addr: nat, length: nat) {
    && KERNEL_VMB <= addr && |v'.used| == |v.used|
    && var i := (addr - KERNEL_VMB) / PAGE_SIZE;
       && IsFirstRun(v.used, i, PagesWanted(length / 0x1000))
       && (forall k :: i <= k < i + PagesWanted(length / 0x1000) && k < |v.used| ==> v'.used[k])
       && (forall k :: 0 <= k < |v.used| && v'.used[k] ==>
             || v.used[k] || i <= k < i + PagesWanted(length / 0x1000)
             || v.base / 0x1000 < k <= v'.base / 0x1000)
  }

  lemma DirectTables(v: Space, v': Space, addr: nat, p: nat, length: nat, flags: nat)
    requires v.Valid() && v'.Valid() && DirectMapped(v, v', addr, p, length, flags)
    ensures !NeverEnds(addr, length) && RangeNodes(addr, PageCount(addr, length)) <= v'.tables.Keys
  {
  }

  lemma DirectUndone(v: Space, v1: Space, v2: Space, addr: nat, p: nat, length: nat, flags: nat)
    requires v.Valid() && v1.Valid() && v2.Valid()
    requires DirectMapped(v, v1, addr, p, length, flags) && Unmapped(v1, v2, addr, length)
    ensures Undone(v, v2, addr, length)
  {
    hide Tree, Leaf, Grown, DirectMapped, Unmapped, RangeUnmapped, Walk, PageCount, RangeNodes;
    forall va: nat ensures Walk(v2, va) == Walk(v, va) {
      UnmapUndoesMap(v, v1, v2, addr, p, length, flags, va);
    }
    UnmapUndoesMap(v, v1, v2, addr, p, length, flags, 0);
  }

  /** A mapping of fresh frames is a mapping of chosen ones, once they are marked. */
  lemma AllocIsDirect(v: Space, v': Space, addr: nat, length: nat, flags: nat)
    requires v.Valid() && v'.Valid() && AllocMapped(v, v', length, flags, addr)
    ensures KERNEL_VMB <= addr
    ensures var vm := v.(used := Filled(v.used, (addr - KERNEL_VMB) / PAGE_SIZE, PagesWanted(length / 0x1000)));
            vm.Valid() && DirectMapped(vm, v', addr, addr - KERNEL_VMB, length, flags)
  {
    hide Tree, Leaf, Grown, Rewritten, RangeNodes, PageCount;
    UsedIrrelevant(v, Filled(v.used, (addr - KERNEL_VMB) / PAGE_SIZE, PagesWanted(length / 0x1000)));
  }

  /**
   What an allocating map call does to the processor's translations: each address of the range reaches the frame it
   stands for, and every other address translates as before.
  */
  lemma AllocTranslates(v: Space, v': Space, addr: nat, length: nat, flags: nat, va: nat)
    requires v.Valid() && v'.Valid() && AllocMapped(v, v', length, flags, addr) && |v.used| <= 0x8_0000
    requires flags < 0x100 && flags % 2 == 1 && addr + length < TWO64 && Canonical(va)
    ensures Walk(v', va) == if addr <= va < addr + PageUp(length) then Page((va - 0xFFFF_FFFF_8000_0000) / 0x1000, flags)
                            else Walk(v, va)
  {
    hide Tree, Leaf, Grown, Rewritten, RangeUnmapped, AllocMapped, PageCount, NeverEnds, WalkFrom, DirectMapped, RangeNodes;
    AllocMappedFacts(v, v', length, flags, addr);
    RunFits((addr - KERNEL_VMB) / PAGE_SIZE, length, |v.used|);
    AllocIsDirect(v, v', addr, length, flags);
    var vm := v.(used := Filled(v.used, (addr - KERNEL_VMB) / PAGE_SIZE, PagesWanted(length / 0x1000)));
    PageCountRoundsUp(addr, length);
    KernelRangeOk((addr - KERNEL_VMB) / PAGE_SIZE, length, PageCount(addr, length));
    MapTranslates(vm, v', addr, addr - KERNEL_VMB, length, flags, va);
    if addr <= va { FramesFromBase(addr, va); }
  }

  lemma KernelRangeOk(i: nat, length: nat, n: nat)
    requires n == (length + 0xFFF) / 0x1000 && KERNEL_VMB + i * PAGE_SIZE + n * PAGE_SIZE < TWO64
    ensures CanonicalRange(KERNEL_VMB + i * PAGE_SIZE, n) && FramesOk(i * PAGE_SIZE, n) && n * 0x1000 == PageUp(length)
  {
  }

  lemma FramesFromBase(addr: nat, va: nat)
    requires KERNEL_VMB <= addr <= va && (addr - KERNEL_VMB) % 0x1000 == 0
    ensures (addr - KERNEL_VMB) / 0x1000 + (va - addr) / 0x1000 == (va - 0xFFFF_FFFF_8000_0000) / 0x1000
  {
    assert addr - KERNEL_VMB == 0x1000 * ((addr - KERNEL_VMB) / 0x1000);
  }

  lemma AllocRangeOk(v: Space, v': Space, addr: nat, length: nat, flags: nat)
    requires v.Valid() && v'.Valid() && AllocMapped(v, v', length, flags, addr) && |v.used| <= 0x8_0000
    ensures RangeOk(addr, length)
  {
    hide Tree, Leaf, Grown, Rewritten, RangeUnmapped, AllocMapped, PageCount, NeverEnds;
    AllocMappedFacts(v, v', length, flags, addr);
    RunFits((addr - KERNEL_VMB) / PAGE_SIZE, length, |v.used|);
    PagesMappedAndAllocated(addr, length);
  }

  lemma UndoneFrom(v: Space, vm: Space, v2: Space, addr: nat, length: nat)
    requires v.Valid() && vm.Valid() && v2.Valid() && vm == v.(used := vm.used) && Undone(vm, v2, addr, length)
    ensures Undone(v, v2, addr, length)
  {
    hide Tree, Leaf, RangeUnmapped, WalkFrom;
    forall va: nat ensures Walk(v2, va) == Walk(v, va) {
      assert Walk(v2, va) == Walk(vm, va);
    }
  }

  lemma FramesStay(v: Space, v1: Space, v2: Space, addr: nat, length: nat, flags: nat)
    requires v.Valid() && v1.Valid() && v2.Valid()
    requires AllocMapped(v, v1, length, flags, addr) && Unmapped(v1, v2, addr, length)
    ensures FramesTaken(v, v2, addr, length)
  {
    hide Tree, Leaf, Rewritten, RangeNodes, RangeUnmapped, OutsideTables, PageCount;
  }
}
