/** Lobo's virtual memory manager: the page-table code and the mapping calls above it. */
module VirtualMemory {
  import opened Outcomes
  import opened Memory
  import opened PageTables
  import opened PageRanges
  import opened KernelMemory
  import opened AddressSpaces
  import opened KernelRegion

  const VMM_PAGE_WRITE: nat := 2

  /** The first two tables of Path. */
  function UpperPath(vpn: nat): set<Node> {
    {NodeOf(3, vpn), NodeOf(2, vpn)}
  }

  lemma PathInPass(addr: nat, k: nat, n: nat)
    requires k < n && addr % PAGE_SIZE == 0
    ensures Vpn(Cursor(addr, k)) == PageAt(addr, k)
    ensures RangeNodes(addr, k + 1) == RangeNodes(addr, k) + Path(PageAt(addr, k))
    ensures Path(PageAt(addr, k)) <= RangeNodes(addr, n)
    ensures NodeOf(1, PageAt(addr, k)) in Path(PageAt(addr, k))
  {
    CursorPage(addr, k);
    RangeSteps(addr, k, n);
  }

  lemma PassStart(addr: nat, size: nat, w: Rewrite)
    requires RangeOk(addr, size) && RewriteOk(w)
    ensures addr % PAGE_SIZE == 0 && Cursor(addr, 0) == addr && RangeNodes(addr, 0) == {}
    ensures !NeverEnds(addr, size) ==> PageCount(addr, size) <= VPN_COUNT
    ensures (addr + size) % TWO64 == RangeLimit(addr, size)
    ensures w.ToFrames? ==> Cursor(w.frames, 0) == w.frames
    ensures VPN_COUNT > 0 && TWO64 == 0x1_0000_0000_0000_0000
  {
  }

  /** A pass that has mapped every page number there is meets the page it mapped first. */
  lemma ComesRound(v: Space, t: Space, addr: nat, w: Rewrite)
    requires v.Valid() && t.Valid() && Rewritten(v, t, addr, VPN_COUNT, w)
    requires w.ToFrames? && RewriteOk(w) && w.flags % 2 == 1
    ensures Present(t.LeafAt(PageAt(addr, VPN_COUNT)))
  {
    hide Tree, Leaf;
    var d := PageOffset(addr, PageAt(addr, VPN_COUNT));
    LeafWordPresent(w.frames, d, w.flags);
  }

  /** What the slot of a table holds, and where the link in it leads. */
  lemma SlotWord(v: Space, n: Node, i: nat)
    requires v.Valid() && v.limit + KERNEL_VMB < TWO64 && n in v.tables && n.level >= 2 && i < ENTRIES
    ensures TableOk(v.mem, n, v.tables[n])
    ensures WrapSub(KERNEL_VMB + v.tables[n], KERNEL_VMB) == v.tables[n]
    ensures Child(n, i) !in v.tables ==> Entry(v.mem, v.tables[n], i) == 0
    ensures Child(n, i) in v.tables ==>
              var e := Entry(v.mem, v.tables[n], i);
              e != 0 && (e - e % 0x100 + KERNEL_VMB) % TWO64 == KERNEL_VMB + v.tables[Child(n, i)]
  {
    assert TableOk(v.mem, n, v.tables[n]);
    assert Entry(v.mem, v.tables[n], i) == LinkWord(v.tables, n, i);
    if Child(n, i) in v.tables {
      assert TableOk(v.mem, Child(n, i), v.tables[Child(n, i)]);
      MaskedLink(v.tables[Child(n, i)]);
    }
  }

  /** Masking the low 8 bits of a link leaves the table's address. */
  lemma MaskedLink(t: nat)
    requires t % PAGE_SIZE == 0 && t + KERNEL_VMB < TWO64
    ensures var e := t + LINK_FLAGS; e != 0 && (e - e % 0x100 + KERNEL_VMB) % TWO64 == KERNEL_VMB + t
  {
    assert t == 0x1000 * (t / 0x1000);
    LowByteOfLink(t / 0x1000);
    WrapHigh(t);
  }

  lemma LowByteOfLink(q: nat)
    ensures (0x1000 * q + 3) % 0x100 == 3
  {
  }

  lemma WrapHigh(t: nat)
    requires t + 0xFFFF_FFFF_8000_0000 < 0x1_0000_0000_0000_0000
    ensures (t + 0xFFFF_FFFF_8000_0000) % 0x1_0000_0000_0000_0000 == 0xFFFF_FFFF_8000_0000 + t
  {
  }

  lemma KernelRange(pages: nat, i: nat, length: nat, p: nat, flags: nat)
    requires pages <= 0x8_0000 && i + PagesWanted(length / 0x1000) <= pages && p == i * PAGE_SIZE && flags < 0x100
    ensures (p + KERNEL_VMB) % TWO64 == KERNEL_VMB + i * PAGE_SIZE
    ensures RangeOk(KERNEL_VMB + i * PAGE_SIZE, length) && RewriteOk(ToFrames(p, flags))
    ensures FramesReachable(pages, length) && LengthOk(length) ==> !NeverEnds(KERNEL_VMB + i * PAGE_SIZE, length)
  {
    if LengthOk(length) { GoodLengthEnds(pages, i, length); }
  }

  lemma FirstRunFits(used: seq<bool>, i: nat, n: nat)
    requires IsFirstRun(used, i, n)
    ensures i + n <= |used|
  {
  }

  lemma HighPageUp(x: nat)
    ensures PageUp(KERNEL_VMB + x) == KERNEL_VMB + PageUp(x)
  {
    assert KERNEL_VMB + x + 0xFFF == 0xF_FFFF_FFF8_0000 * 0x1000 + (x + 0xFFF);
  }

  lemma LimitPage(a: nat)
    ensures KERNEL_VMB <= a ==> (a - KERNEL_VMB) / 0x1000 == a / 0x1000 - 0xF_FFFF_FFF8_0000
  {
  }

  /** A page up to the limit has at most the number of the limit's page. */
  lemma MarkedWithin(a: nat, limit: nat)
    requires KERNEL_VMB <= a < TWO64 && limit < TWO64
    ensures a <= limit ==> Heap.MarkedPage(a) <= Heap.MarkedPage(limit)
  {
    PageBaseOf(a);
    PageBaseOf(limit);
  }

  /** In a backed state no first run of frames stops a call of good length with the remap panic. */
  lemma NeverRemapped(v: Space, length: nat)
    requires v.Valid() && KernelBacked(v) && LengthOk(length) && FramesReachable(|v.used|, length)
    ensures !AllocStops(v, Remapped, length)
  {
    hide Tree, Leaf, RangeUnmapped, KernelBacked, PageCount, NoRoom, IsFirstRun;
    forall i: nat | IsFirstRun(v.used, i, PagesWanted(length / 0x1000)) ensures !RunStops(v, Remapped, length, i) {
      FirstRunFits(v.used, i, PagesWanted(length / 0x1000));
      KernelRange(|v.used|, i, length, i * PAGE_SIZE, 0);
      FirstRunUnmapped(v, length, i);
    }
  }

  lemma UsedIrrelevant(v: Space, used: seq<bool>)
    requires v.Valid()
    ensures v.(used := used).Valid()
    ensures forall vpn: nat :: v.(used := used).LeafAt(vpn) == v.LeafAt(vpn)
    ensures forall addr: nat, n: nat :: RangeUnmapped(v.(used := used), addr, n) == RangeUnmapped(v, addr, n)
    ensures forall nodes: set<Node> :: NoRoom(v.(used := used), nodes) == NoRoom(v, nodes)
  {
  }

  class Vmm {
    var mem: Mem
    var m_init: bool
    var pdir_kernel: nat
    var pdir_current: nat
    ghost var tables: Tables
    const heap: Heap
    const pmm: Pmm

    ghost function State(): Space
      requires pmm.Valid()
      reads this, heap, pmm, pmm.bitmap.m_ptr
    {
      Space(mem, tables, WrapSub(pdir_current, KERNEL_VMB), WrapSub(heap.earlyAllocBase, KERNEL_VMB),
            WrapSub(heap.earlyAllocLimit, KERNEL_VMB), pmm.Used())
    }

    ghost predicate Valid()
      reads this, heap, pmm, pmm.bitmap.m_ptr
      ensures Valid() ==> pmm.Valid() && State().Valid()
    {
      && pmm.Valid() && KERNEL_VMB <= pdir_current < TWO64
      && KERNEL_VMB <= heap.earlyAllocBase <= heap.earlyAllocLimit
      && heap.earlyAllocLimit + 2 * PAGE_SIZE < TWO64
      && State().Valid()
    }

    /** The allocator's only reason to stop is its limit: it is on, and any page it may have to mark is managed. */
    ghost predicate AllocatorReady()
      reads heap`currentMode, heap`earlyAllocLimit, this, pmm`bitmap
      ensures heap.currentMode == EarlyBoot ==> AllocatorReady()
      ensures heap.currentMode == Full && KERNEL_VMB <= heap.earlyAllocLimit < TWO64 ==>
                (heap.earlyAllocLimit - KERNEL_VMB) / 0x1000 < pmm.bitmap.m_length ==> AllocatorReady()
    {
      PageBaseOf(heap.earlyAllocLimit);
      LimitPage(heap.earlyAllocLimit);
      match heap.currentMode
      case Uninitialised => false
      case EarlyBoot => true
      case Full => Heap.MarkedPage(heap.earlyAllocLimit) < pmm.bitmap.m_length
    }

    lemma StateValid()
      requires Valid()
      ensures pmm.Valid() && State().Valid() && State().tables == tables && State().used == pmm.Used()
    {
    }

    constructor (mem: Mem, heap: Heap, pmm: Pmm)
      ensures this.mem == mem && this.heap == heap && this.pmm == pmm && !m_init
    {
      this.mem, this.heap, this.pmm := mem, heap, pmm;
      m_init, pdir_kernel, pdir_current, tables := false, 0, 0, map[];
    }

    /**
     The table behind a slot of table pt (which serves node n), created when missing if asked to;
     0 when it is missing and not to be created.
    */
    method FindPageTable(pt: nat, index: nat, create: bool, ghost n: Node) returns (r: Outcome<nat>)
      requires Valid() && n in tables && n.level >= 2 && index < ENTRIES && pt == KERNEL_VMB + tables[n]
      modifies this`mem, this`tables, heap`earlyAllocBase, pmm.bitmap.m_ptr
      ensures pmm.Valid()
      ensures Child(n, index) in old(tables) || !create ==> r.Done? && State() == old(State())
      ensures r.Done? ==> Valid() && Grown(old(State()), State()) && SameLeaves(old(State()), State())
      ensures r.Done? && Child(n, index) !in old(tables) && !create ==> r.value == 0
      ensures r.Done? && (create || Child(n, index) in old(tables)) ==>
                && tables.Keys == old(tables).Keys + {Child(n, index)}
                && r.value == KERNEL_VMB + tables[Child(n, index)]
      ensures r.Halted? ==> r.why != Remapped
      ensures r.Halted? && AllocatorReady() ==> r.why == HeapExhausted
      ensures r.Halted? && r.why == HeapExhausted ==> NoRoom(old(State()), {Child(n, index)})
    {
      hide Tree, Grown, InMemory, NoRoom, SameLeaves;
      SlotWord(State(), n, index);
      GrownReflexive(State());
      SameLeavesReflexive(State());
      var entry := Entry(mem, WrapSub(pt, KERNEL_VMB), index);
      if entry == 0 {
        if !create { return Done(0); }
        r := CreateTable(pt, index, n);
      } else {
        return Done((entry - entry % 0x100 + KERNEL_VMB) % TWO64);
      }
    }

    /** The creating branch: a fresh page, zeroed and linked. */
    method CreateTable(pt: nat, index: nat, ghost n: Node) returns (r: Outcome<nat>)
      requires Valid() && n in tables && n.level >= 2 && index < ENTRIES && pt == KERNEL_VMB + tables[n]
      requires Child(n, index) !in tables && TableOk(mem, n, tables[n])
      modifies this`mem, this`tables, heap`earlyAllocBase, pmm.bitmap.m_ptr
      ensures pmm.Valid()
      ensures r.Done? ==>
                && Valid() && Grown(old(State()), State()) && SameLeaves(old(State()), State())
                && tables.Keys == old(tables).Keys + {Child(n, index)}
                && r.value == KERNEL_VMB + tables[Child(n, index)]
      ensures r.Halted? ==> r.why != Remapped
      ensures r.Halted? && AllocatorReady() ==> r.why == HeapExhausted
      ensures r.Halted? && r.why == HeapExhausted ==> NoRoom(old(State()), {Child(n, index)})
    {
      hide SetEntry, ZeroFill, Tree, Grown, InMemory, Linked, Injective, Connected, SameLeaves, NoRoom, PageUp, WithTable;
      ghost var v := State();
      NoRoomForOne(v, Child(n, index));
      var table :- AllocPage();
      FreshPage(v, n, index, WrapSub(table, KERNEL_VMB));
      InstallTable(pt, index, table, n, v);
      GrowByOne(v, n, index, WrapSub(table, KERNEL_VMB), pmm.Used());
      WithTableParts(v, n, index, WrapSub(table, KERNEL_VMB), pmm.Used());
      return Done(table);
    }

    /** Clears a fresh page and writes the link to it; v is the state before the page was taken. */
    method InstallTable(pt: nat, index: nat, table: nat, ghost n: Node, ghost v: Space)
      requires pmm.Valid() && v.Valid() && mem == v.mem && tables == v.tables && KERNEL_VMB <= pdir_current < TWO64
      requires n in tables && n.level >= 1 && index < ENTRIES && pt == KERNEL_VMB + tables[n] && KERNEL_VMB <= table < TWO64
      requires tables[n] + PAGE_SIZE <= |mem| && pt < TWO64
      requires var t := WrapSub(table, KERNEL_VMB); t % PAGE_SIZE == 0 && t + PAGE_SIZE <= |mem|
      requires WrapSub(pdir_current, KERNEL_VMB) == v.root && WrapSub(heap.earlyAllocLimit, KERNEL_VMB) == v.limit
      requires WrapSub(heap.earlyAllocBase, KERNEL_VMB) == WrapSub(table, KERNEL_VMB) + PAGE_SIZE
      modifies this`mem, this`tables
      ensures State() == WithTable(v, n, index, WrapSub(table, KERNEL_VMB), pmm.Used())
    {
      hide SetEntry, ZeroFill, Tree;
      var tablePhys := WrapSub(table, KERNEL_VMB);
      Memset(tablePhys, PAGE_SIZE);
      BitOrPage(tablePhys, LINK_FLAGS);
      mem := SetEntry(mem, WrapSub(pt, KERNEL_VMB), index, BitOr(tablePhys, LINK_FLAGS));
      tables := tables[Child(n, index) := tablePhys];
    }

    /** One page from the allocator. */
    method AllocPage() returns (r: Outcome<nat>)
      requires Valid()
      modifies heap`earlyAllocBase, pmm.bitmap.m_ptr
      ensures pmm.Valid()
      ensures r.Done? ==>
                && r.value == KERNEL_VMB + PageUp(old(State()).base) && heap.earlyAllocBase == r.value + PAGE_SIZE
                && r.value + PAGE_SIZE <= heap.earlyAllocLimit
                && HeapMarks(old(pmm.Used()), pmm.Used(), old(State()).base, State().base)
      ensures r.Halted? ==> r.why != Remapped
      ensures r.Halted? && AllocatorReady() ==> r.why == HeapExhausted
      ensures r.Halted? && r.why == HeapExhausted ==>
                PageUp(old(State()).base) + PAGE_SIZE > old(State()).limit
    {
      hide Tree;
      PageUpIsAlignUp(heap.earlyAllocBase);
      HighPageUp(State().base);
      MarkedWithin(PageUp(heap.earlyAllocBase) + PAGE_SIZE, heap.earlyAllocLimit);
      r := heap.KmallocAligned(pmm, PAGE_SIZE, 0x1000);
    }

    /** memset to zero, of physical memory. */
    method Memset(a: nat, n: nat)
      requires a + n <= |mem|
      modifies this`mem
      ensures mem == ZeroFill(old(mem), a, n)
    {
      for i := 0 to n
        invariant mem == ZeroFill(old(mem), a, i)
      {
        mem := mem[a + i := 0];
      }
    }

    /** The page directory on the way to addr: the first two steps of FindPageEntry. */
    method FindDirectory(p4: nat, addr: nat, create: bool) returns (r: Outcome<nat>)
      requires Valid() && p4 == pdir_current
      modifies this`mem, this`tables, heap`earlyAllocBase, pmm.bitmap.m_ptr
      ensures pmm.Valid()
      ensures UpperPath(Vpn(addr)) <= old(tables).Keys || !create ==> r.Done? && State() == old(State())
      ensures r.Done? ==> Valid() && Grown(old(State()), State()) && SameLeaves(old(State()), State())
      ensures r.Done? && !create && !(UpperPath(Vpn(addr)) <= old(tables).Keys) ==> r.value == 0
      ensures r.Done? && (create || UpperPath(Vpn(addr)) <= old(tables).Keys) ==>
                && tables.Keys == old(tables).Keys + UpperPath(Vpn(addr))
                && r.value == KERNEL_VMB + tables[NodeOf(2, Vpn(addr))]
      ensures r.Halted? ==> r.why != Remapped
      ensures r.Halted? && AllocatorReady() ==> r.why == HeapExhausted
      ensures r.Halted? && r.why == HeapExhausted ==> NoRoom(old(State()), UpperPath(Vpn(addr)))
    {
      hide Tree, Grown, InMemory, NoRoom, SameLeaves, Linked, Injective, Connected;
      ghost var v := State();
      ghost var vpn := Vpn(addr);
      AddressIndices(addr);
      PathSteps(vpn);
      var i4, i3 := addr / 0x80_0000_0000 % 512, addr / 0x4000_0000 % 512;
      hide Vpn, Prefix, Index, NodeOf, Child, Parent;
      RootKnown(v);
      GrownReflexive(v);
      SameLeavesReflexive(v);

      var p3 :- FindTableFor(p4, i4, create, Node(4, 0), v, {}, UpperPath(vpn));
      if p3 == 0 { return Done(0); }
      r := FindTableFor(p3, i3, create, NodeOf(3, vpn), v, {NodeOf(3, vpn)}, UpperPath(vpn));
    }

    /** FindPageTable as one step of a walk that began in state v and has made sure of the tables in sofar. */
    method FindTableFor(pt: nat, index: nat, create: bool, ghost n: Node, ghost v: Space, ghost sofar: set<Node>,
                        ghost target: set<Node>)
      returns (r: Outcome<nat>)
      requires Valid() && n in tables && n.level >= 2 && index < ENTRIES && pt == KERNEL_VMB + tables[n]
      requires v.Valid() && Grown(v, State()) && SameLeaves(v, State()) && tables.Keys == v.tables.Keys + sofar
      requires sofar + {Child(n, index)} <= target
      modifies this`mem, this`tables, heap`earlyAllocBase, pmm.bitmap.m_ptr
      ensures pmm.Valid()
      ensures Child(n, index) in old(tables) || !create ==> r.Done? && State() == old(State())
      ensures r.Done? ==> Valid() && Grown(v, State()) && SameLeaves(v, State())
      ensures r.Done? && Child(n, index) !in old(tables) && !create ==> r.value == 0
      ensures r.Done? && (create || Child(n, index) in old(tables)) ==>
                && tables.Keys == v.tables.Keys + sofar + {Child(n, index)}
                && r.value == KERNEL_VMB + tables[Child(n, index)]
      ensures r.Halted? ==> r.why != Remapped
      ensures r.Halted? && AllocatorReady() ==> r.why == HeapExhausted
      ensures r.Halted? && r.why == HeapExhausted ==> NoRoom(v, target)
    {
      hide Tree, Grown, InMemory, NoRoom, SameLeaves, Linked, Injective, Connected;
      ghost var before := State();
      r := FindPageTable(pt, index, create, n);
      if r.Done? {
        GrownTransitive(v, before, State());
        SameLeavesTransitive(v, before, State());
      } else if r.why == HeapExhausted {
        NoRoomBefore(v, before, sofar, {Child(n, index)}, target);
      }
    }

    /**
     The address of the leaf entry of addr, with the tables on the way created when asked to; 0 when one
     is missing and not to be created.
    */
    method FindPageEntry(p4: nat, addr: nat, create: bool) returns (r: Outcome<nat>)
      requires Valid() && p4 == pdir_current
      modifies this`mem, this`tables, heap`earlyAllocBase, pmm.bitmap.m_ptr
      ensures pmm.Valid()
      ensures Path(Vpn(addr)) <= old(tables).Keys || !create ==> r.Done? && State() == old(State())
      ensures r.Done? ==> Valid() && Grown(old(State()), State()) && SameLeaves(old(State()), State())
      ensures r.Done? && !create && !(Path(Vpn(addr)) <= old(tables).Keys) ==> r.value == 0
      ensures r.Done? && (create || Path(Vpn(addr)) <= old(tables).Keys) ==>
                && tables.Keys == old(tables).Keys + Path(Vpn(addr))
                && r.value == KERNEL_VMB + tables[NodeOf(1, Vpn(addr))] + 8 * Index(1, Vpn(addr))
      ensures r.Halted? ==> r.why != Remapped
      ensures r.Halted? && AllocatorReady() ==> r.why == HeapExhausted
      ensures r.Halted? && r.why == HeapExhausted ==> NoRoom(old(State()), Path(Vpn(addr)))
    {
      hide Tree, Grown, InMemory, NoRoom, SameLeaves, Linked, Injective, Connected;
      ghost var v := State();
      ghost var vpn := Vpn(addr);
      AddressIndices(addr);
      PathSteps(vpn);
      var i2, i1 := addr / 0x20_0000 % 512, addr / 0x1000 % 512;
      hide Vpn, Prefix, Index, NodeOf, Child, Parent;

      var p2 := FindDirectory(p4, addr, create);
      if p2.Halted? {
        if p2.why == HeapExhausted { NoRoomWider(v, UpperPath(vpn), Path(vpn)); }
        return p2;
      }
      if p2.value == 0 { return Done(0); }
      var p1 :- FindTableFor(p2.value, i2, create, NodeOf(2, vpn), v, UpperPath(vpn), Path(vpn));
      if p1 == 0 { return Done(0); }
      return Done(p1 + 8 * i1);
    }

    /**
     Maps the pages of [addr, addr + size) to consecutive frames from p_addr on. Stops the machine when a
     page is already present. When the end lies inside the last page of all the cursor goes on from page 0: such
     a call never returns, at the latest because it meets a page it mapped itself.
    */
    method MapPages(p4: nat, addr: nat, p_addr: nat, size: nat, flags: nat) returns (r: Outcome<()>)
      requires Valid() && p4 == pdir_current && RangeOk(addr, size) && RewriteOk(ToFrames(p_addr, flags))
      modifies this`mem, this`tables, heap`earlyAllocBase, pmm.bitmap.m_ptr
      ensures pmm.Valid()
      ensures r.Done? ==>
                && Valid() && !NeverEnds(addr, size) && Grown(old(State()), State())
                && tables.Keys == old(tables).Keys + RangeNodes(addr, PageCount(addr, size))
                && RangeUnmapped(old(State()), addr, PageCount(addr, size))
                && Rewritten(old(State()), State(), addr, PageCount(addr, size), ToFrames(p_addr, flags))
      ensures r.Halted? && !NeverEnds(addr, size) ==>
                && (r.why == Remapped ==> !RangeUnmapped(old(State()), addr, PageCount(addr, size)))
                && (r.why == HeapExhausted ==> NoRoom(old(State()), RangeNodes(addr, PageCount(addr, size))))
                && (AllocatorReady() ==> r.why == Remapped || r.why == HeapExhausted)
                && (RangeNodes(addr, PageCount(addr, size)) <= old(tables).Keys ==> r.why == Remapped)
    {
      hide *;
      // Nothing stops this loop but a page it did not map, or the allocator.
      if NeverEnds(addr, size) && flags % 2 == 0 { return Halted(NeverReturns); }
      StateValid();
      ghost var v := State();
      ghost var n := if NeverEnds(addr, size) then VPN_COUNT + 1 else PageCount(addr, size);
      ghost var w := ToFrames(p_addr, flags);
      ghost var k := 0;
      PassStart(addr, size, w);
      RewriteStart(v, addr, w);
      var addrLimit := (addr + size) % TWO64;
      var a, p := addr, p_addr;
      PassCursor(addr, size, 0);
      while a < addrLimit
        invariant a == Cursor(addr, k) && p == Cursor(p_addr, k) && k <= n
        invariant NeverEnds(addr, size) ==> k < n
        invariant a < addrLimit <==> k < n
        invariant Valid() && Grown(v, State()) && Rewritten(v, State(), addr, k, w)
        invariant tables.Keys == v.tables.Keys + RangeNodes(addr, k)
        invariant RangeUnmapped(v, addr, k)
        decreases n - k
      {
        r := MapPage(p4, a, p, flags, v, addr, n, k, w);
        if r.Halted? { return; }
        PassCursor(addr, size, k + 1);
        CursorStep(addr, k);
        CursorStep(p_addr, k);
        a := (a + PAGE_SIZE) % TWO64;
        p := (p + PAGE_SIZE) % TWO64;
        k := k + 1;
      }
      return Done(());
    }

    /** The entry for page k of n of a pass that began in state v. */
    method NextEntry(p4: nat, a: nat, ghost v: Space, ghost addr: nat, ghost n: nat, ghost k: nat, ghost w: Rewrite)
      returns (r: Outcome<nat>)
      requires Valid() && p4 == pdir_current && k < n && addr % PAGE_SIZE == 0 && a == Cursor(addr, k)
      requires v.Valid() && Grown(v, State()) && Rewritten(v, State(), addr, k, w)
      requires tables.Keys == v.tables.Keys + RangeNodes(addr, k)
      modifies this`mem, this`tables, heap`earlyAllocBase, pmm.bitmap.m_ptr
      ensures pmm.Valid()
      ensures r.Done? ==>
                && Valid() && Grown(v, State()) && Rewritten(v, State(), addr, k, w)
                && tables.Keys == v.tables.Keys + RangeNodes(addr, k + 1)
                && NodeOf(1, PageAt(addr, k)) in tables
                && r.value == KERNEL_VMB + tables[NodeOf(1, PageAt(addr, k))] + 8 * Index(1, PageAt(addr, k))
      ensures r.Halted? ==> r.why != Remapped && !(RangeNodes(addr, n) <= v.tables.Keys)
      ensures r.Halted? && AllocatorReady() ==> r.why == HeapExhausted
      ensures r == Halted(HeapExhausted) ==> NoRoom(v, RangeNodes(addr, n))
    {
      PathInPass(addr, k, n);
      hide *;
      ghost var s := State();
      KeysStep(tables.Keys, v.tables.Keys, RangeNodes(addr, k), Path(PageAt(addr, k)));
      r := FindPageEntry(p4, a, true);
      if r.Done? {
        GrownTransitive(v, s, State());
        RewrittenGrows(v, s, State(), addr, k, w);
      } else if r.why == HeapExhausted {
        NoRoomInPass(v, s, addr, k, n);
      }
    }

    /**
     The body of the loop of MapPages: page k of n of a pass that began in state v. A pass that has come round to
     the page it began with stops there.
    */
    method MapPage(p4: nat, a: nat, p: nat, flags: nat, ghost v: Space, ghost addr: nat, ghost n: nat, ghost k: nat,
                   ghost w: Rewrite)
      returns (r: Outcome<()>)
      requires Valid() && p4 == pdir_current && k < n && k <= VPN_COUNT && addr % PAGE_SIZE == 0
      requires w.ToFrames? && RewriteOk(w) && w.flags == flags && (k == VPN_COUNT ==> flags % 2 == 1)
      requires a == Cursor(addr, k) && p == Cursor(w.frames, k)
      requires v.Valid() && Grown(v, State()) && Rewritten(v, State(), addr, k, w) && RangeUnmapped(v, addr, k)
      requires tables.Keys == v.tables.Keys + RangeNodes(addr, k)
      modifies this`mem, this`tables, heap`earlyAllocBase, pmm.bitmap.m_ptr
      ensures pmm.Valid()
      ensures r.Done? ==>
                && k < VPN_COUNT && Valid() && Grown(v, State()) && Rewritten(v, State(), addr, k + 1, w)
                && RangeUnmapped(v, addr, k + 1)
                && tables.Keys == v.tables.Keys + RangeNodes(addr, k + 1)
      ensures r == Halted(Remapped) && n <= VPN_COUNT ==> !RangeUnmapped(v, addr, n)
      ensures r == Halted(HeapExhausted) ==> NoRoom(v, RangeNodes(addr, n))
      ensures r.Halted? && AllocatorReady() ==> r.why == Remapped || r.why == HeapExhausted
      ensures r.Halted? && RangeNodes(addr, n) <= v.tables.Keys ==> r.why == Remapped
    {
      hide Tree, Grown, InMemory, NoRoom, SameLeaves, Linked, Injective, Connected, Rewritten, RangeUnmapped,
        PageAt, PageOffset, StoreWord, TableOk, RangeNodes, Cursor;
      var entry :- NextEntry(p4, a, v, addr, n, k, w);
      ghost var t := State();
      ghost var vpn := PageAt(addr, k);
      var e := WrapSub(entry, KERNEL_VMB);
      assert e == tables[NodeOf(1, vpn)] + 8 * Index(1, vpn);
      if k == VPN_COUNT {
        ComesRound(v, t, addr, w);
      } else {
        RewriteStep(v, t, addr, k, w);
        StillUnmapped(v, t, addr, k, if n <= VPN_COUNT then n else VPN_COUNT, w);
      }
      if LoadWord(mem, e) % 2 == 1 { return Halted(Remapped); }
      CursorPage(w.frames, k);
      BitOrPage(p, flags);
      mem := StoreWord(mem, e, BitOr(p, flags));
      return Done(());
    }

    /** The body of the loop of UnmapPages: page k of n of a pass that began in state v. */
    method UnmapPage(p4: nat, a: nat, ghost v: Space, ghost addr: nat, ghost n: nat, ghost k: nat)
      returns (r: Outcome<()>)
      requires Valid() && p4 == pdir_current && k < n <= VPN_COUNT && addr % PAGE_SIZE == 0
      requires a == Cursor(addr, k)
      requires v.Valid() && Grown(v, State()) && Rewritten(v, State(), addr, k, ToNothing)
      requires tables.Keys == v.tables.Keys + RangeNodes(addr, k)
      modifies this`mem, this`tables, heap`earlyAllocBase, pmm.bitmap.m_ptr
      ensures pmm.Valid()
      ensures r.Done? ==>
                && Valid() && Grown(v, State()) && Rewritten(v, State(), addr, k + 1, ToNothing)
                && tables.Keys == v.tables.Keys + RangeNodes(addr, k + 1)
      ensures r.Halted? ==> r.why != Remapped && !(RangeNodes(addr, n) <= v.tables.Keys)
      ensures r.Halted? && AllocatorReady() ==> r.why == HeapExhausted
      ensures r == Halted(HeapExhausted) ==> NoRoom(v, RangeNodes(addr, n))
    {
      hide Tree, Grown, InMemory, NoRoom, SameLeaves, Linked, Injective, Connected, Rewritten, PageAt, PageOffset,
        StoreWord, TableOk, RangeNodes, Cursor;
      var entry :- NextEntry(p4, a, v, addr, n, k, ToNothing);
      RewriteStep(v, State(), addr, k, ToNothing);
      var e := WrapSub(entry, KERNEL_VMB);
      assert e == tables[NodeOf(1, PageAt(addr, k))] + 8 * Index(1, PageAt(addr, k));
      mem := StoreWord(mem, e, VMM_PAGE_WRITE);
      return Done(());
    }

    /**
     Marks the pages of [addr, addr + size) not present, creating missing tables on the way. When the end lies
     inside the last page of all the loop never ends.
    */
    method UnmapPages(p4: nat, addr: nat, size: nat) returns (r: Outcome<()>)
      requires Valid() && p4 == pdir_current && RangeOk(addr, size)
      modifies this`mem, this`tables, heap`earlyAllocBase, pmm.bitmap.m_ptr
      ensures pmm.Valid()
      ensures r.Done? ==>
                && Valid() && !NeverEnds(addr, size) && Grown(old(State()), State())
                && tables.Keys == old(tables).Keys + RangeNodes(addr, PageCount(addr, size))
                && Rewritten(old(State()), State(), addr, PageCount(addr, size), ToNothing)
      ensures r.Halted? && !NeverEnds(addr, size) ==>
                && (r.why == HeapExhausted ==> NoRoom(old(State()), RangeNodes(addr, PageCount(addr, size))))
                && (AllocatorReady() ==> r.why == HeapExhausted)
                && r.why != Remapped && !(RangeNodes(addr, PageCount(addr, size)) <= old(tables).Keys)
    {
      hide *;
      // The guard holds in every round, and no page stops this loop.
      if NeverEnds(addr, size) { return Halted(NeverReturns); }
      StateValid();
      ghost var v := State();
      ghost var n := PageCount(addr, size);
      ghost var k := 0;
      PassStart(addr, size, ToNothing);
      RewriteStart(v, addr, ToNothing);
      var addrLimit := (addr + size) % TWO64;
      var a := addr;
      PassCursor(addr, size, 0);
      while a < addrLimit
        invariant a == Cursor(addr, k) && k <= n
        invariant a < addrLimit <==> k < n
        invariant Valid() && Grown(v, State()) && Rewritten(v, State(), addr, k, ToNothing)
        invariant tables.Keys == v.tables.Keys + RangeNodes(addr, k)
        decreases n - k
      {
        r := UnmapPage(p4, a, v, addr, n, k);
        if r.Halted? { return; }
        PassCursor(addr, size, k + 1);
        CursorStep(addr, k);
        a := (a + PAGE_SIZE) % TWO64;
        k := k + 1;
      }
      return Done(());
    }

    /** Makes a page directory current; loading it flushes the translation cache. */
    method SwapPageDirectory(newMemorySpace: nat)
      modifies this`pdir_current
      ensures pdir_current == newMemorySpace
    {
      pdir_current := newMemorySpace;
    }

    /** The kernel's first page directory, which maps nothing. */
    method Init() returns (r: Outcome<()>)
      requires pmm.Valid() && |mem| <= PHYS_LIMIT
      requires KERNEL_VMB <= heap.earlyAllocBase <= heap.earlyAllocLimit
      requires heap.earlyAllocLimit - KERNEL_VMB <= |mem| && heap.earlyAllocLimit + 2 * PAGE_SIZE < TWO64
      modifies this, heap`earlyAllocBase, pmm.bitmap.m_ptr
      ensures pmm.Valid()
      ensures old(m_init) ==> r == Done(()) && mem == old(mem) && tables == old(tables) && pdir_current == old(pdir_current)
      ensures r.Done? && !old(m_init) ==>
                && Valid() && pdir_current == pdir_kernel && m_init
                && tables.Keys == {Node(4, 0)} && MapsNothing(State())
      ensures r.Done? && !old(m_init) ==>
                && pdir_kernel == AlignUp(old(heap.earlyAllocBase), 0x1000)
                && heap.earlyAllocBase == pdir_kernel + PAGE_SIZE
      ensures !old(m_init) && heap.currentMode == EarlyBoot ==>
                && (r.Halted? <==> AlignUp(old(heap.earlyAllocBase), 0x1000) + PAGE_SIZE > heap.earlyAllocLimit)
                && (r.Halted? ==> r.why == HeapExhausted)
    {
      hide Tree, Leaf;
      if m_init { return Done(()); }
      m_init := true;
      PageUpIsAlignUp(heap.earlyAllocBase);
      pdir_kernel :- heap.KmallocAligned(pmm, 0x1000, 0x1000);
      ghost var root := WrapSub(pdir_kernel, KERNEL_VMB);
      assert root % PAGE_SIZE == 0 by {
        assert KERNEL_VMB % 0x1000 == 0;
      }
      Memset(WrapSub(pdir_kernel, KERNEL_VMB), PAGE_SIZE);
      tables := map[Node(4, 0) := root];
      EmptyTree(mem, root);
      pdir_current := pdir_kernel;
      SwapPageDirectory(pdir_kernel);
      return Done(());
    }

    /**
     The mapping calls when backed by RAM and given no address. While every kernel-region page is backed by a
     used frame, a call with a good length never meets a page that is already present, and keeps it so.
    */
    method MapAllocated(length: nat, perm: int) returns (r: Outcome<nat>)
      requires Valid() && length < TWO64 && pmm.m_numPages <= 0x8_0000
      modifies this`mem, this`tables, this`pdir_current, heap`earlyAllocBase, pmm.bitmap.m_ptr
      ensures pmm.Valid()
      ensures r.Done? ==> Valid() && AllocMapped(old(State()), State(), length, perm % 0x100, r.value)
      ensures r.Halted? && AllocatorReady() ==> AllocStops(old(State()), r.why, length)
      ensures KernelBacked(old(State())) && LengthOk(length) && FramesReachable(pmm.m_numPages, length) ==>
                && r != Halted(Remapped)
                && (r.Done? ==> KernelBacked(State()))
    {
      hide Tree, Grown, Leaf, RangeUnmapped, Rewritten, AllocMapped, KernelBacked, IsFirstRun, PageCount, NeverEnds,
        FramesReachable;
      ghost var v := State();
      r := AllocateAndMap(length, perm);
      if KernelBacked(v) && LengthOk(length) && FramesReachable(pmm.m_numPages, length) {
        if r.Done? {
          AllocKeepsBacked(v, State(), length, perm % 0x100, r.value);
        } else if r.why == Remapped {
          NeverRemapped(v, length);
          assert false;
        }
      }
    }

    /** Frames are allocated by first fit, then mapped high. */
    method AllocateAndMap(length: nat, perm: int) returns (r: Outcome<nat>)
      requires Valid() && length < TWO64 && pmm.m_numPages <= 0x8_0000
      modifies this`mem, this`tables, this`pdir_current, heap`earlyAllocBase, pmm.bitmap.m_ptr
      ensures pmm.Valid()
      ensures r.Done? ==> Valid() && AllocMapped(old(State()), State(), length, perm % 0x100, r.value)
      ensures r.Halted? && (AllocatorReady() || r.why == Remapped) ==> AllocStops(old(State()), r.why, length)
    {
      hide Tree, Grown, Rewritten, RangeUnmapped, IsFirstRun, FreeRun, Filled, RangeOk, RewriteOk, PageCount, NeverEnds,
        NoRoom, RangeNodes;
      ghost var v := State();
      var p_addr :- pmm.Allocate(length / 0x1000);
      var l_addr := (p_addr + KERNEL_VMB) % TWO64;
      ghost var i := p_addr / 0x1000;
      FirstRunFits(v.used, i, PagesWanted(length / 0x1000));
      KernelRange(pmm.m_numPages, i, length, p_addr, perm % 0x100);
      UsedIrrelevant(v, pmm.Used());
      assert State() == v.(used := Filled(v.used, i, PagesWanted(length / 0x1000)));
      var mapped := MapPages(pdir_current, l_addr, p_addr, length, perm % 0x100);
      if mapped.Halted? {
        assert AllocatorReady() || mapped.why == Remapped ==> RunStops(v, mapped.why, length, i);
        return Halted(mapped.why);
      }
      SwapPageDirectory(pdir_current);
      return Done(l_addr);
    }

    /** A mapping at a chosen address, then a flush. */
    method MapAt(l_addr: nat, p_addr: nat, length: nat, perm: int) returns (r: Outcome<nat>)
      requires Valid() && RangeOk(l_addr, length) && RewriteOk(ToFrames(p_addr, perm % 0x100))
      modifies this`mem, this`tables, this`pdir_current, heap`earlyAllocBase, pmm.bitmap.m_ptr
      ensures pmm.Valid()
      ensures r.Done? ==>
                && Valid() && r.value == l_addr
                && DirectMapped(old(State()), State(), l_addr, p_addr, length, perm % 0x100)
      ensures NeverEnds(l_addr, length) ==> r.Halted?
      ensures AllocatorReady() ==>
                MapOutcome(old(State()), if r.Done? then Done(State()) else Halted(r.why), l_addr, p_addr, length,
                           perm % 0x100)
    {
      hide Tree, Grown, Rewritten, RangeUnmapped, RangeOk, RewriteOk, NoRoom, RangeNodes, PageCount, NeverEnds, MapOutcome;
      ghost var v := State();
      var mapped := MapPages(pdir_current, l_addr, p_addr, length, perm % 0x100);
      if mapped.Halted? {
        if AllocatorReady() { OutcomeIs(v, Halted(mapped.why), l_addr, p_addr, length, perm % 0x100); }
        return Halted(mapped.why);
      }
      SwapPageDirectory(pdir_current);
      OutcomeIs(v, Done(State()), l_addr, p_addr, length, perm % 0x100);
      return Done(l_addr);
    }

    /** map_direct: the caller chooses both addresses. */
    method MapDirect(v_addr: nat, p_addr: nat, length: nat, perm: int, flags: nat) returns (r: Outcome<nat>)
      requires Valid() && RangeOk(v_addr, length) && RewriteOk(ToFrames(p_addr, perm % 0x100))
      modifies this`mem, this`tables, this`pdir_current, heap`earlyAllocBase, pmm.bitmap.m_ptr
      ensures pmm.Valid()
      ensures r.Done? ==>
                && Valid() && r.value == v_addr
                && DirectMapped(old(State()), State(), v_addr, p_addr, length, perm % 0x100)
      ensures NeverEnds(v_addr, length) ==> r.Halted?
      ensures AllocatorReady() ==>
                MapOutcome(old(State()), if r.Done? then Done(State()) else Halted(r.why), v_addr, p_addr, length,
                           perm % 0x100)
    {
      hide Tree, Grown, DirectMapped, RangeOk, RewriteOk, MapOutcome;
      r := MapAt(v_addr, p_addr, length, perm);
    }

    /** map: the four ways an address is chosen, and the ones that are not implemented. */
    method Map(desired_addr: nat, length: nat, perm: int, flags: nat) returns (r: Outcome<nat>)
      requires Valid() && length < TWO64 && desired_addr < TWO64
      requires flags % 2 == 0 && desired_addr == 0 ==> pmm.m_numPages <= 0x8_0000
      requires var t := Target(desired_addr, flags); t.Fixed? ==>
                 RangeOk(t.l_addr, length) && RewriteOk(ToFrames(t.p_addr, perm % 0x100))
      modifies this`mem, this`tables, this`pdir_current, heap`earlyAllocBase, pmm.bitmap.m_ptr
      ensures pmm.Valid()
      ensures var t := Target(desired_addr, flags);
              match t
              case Refused(why) => r.Halted? && (r.why == why || r.why == FramesExhausted || r.why == AssertFailed)
              case Anywhere =>
                && (r.Done? ==> Valid() && AllocMapped(old(State()), State(), length, perm % 0x100, r.value))
                && (r.Halted? && AllocatorReady() ==> AllocStops(old(State()), r.why, length))
                && (KernelBacked(old(State())) && LengthOk(length) && FramesReachable(pmm.m_numPages, length) ==>
                      r != Halted(Remapped) && (r.Done? ==> KernelBacked(State())))
              case Fixed(l, p) =>
                && (r.Done? ==> Valid() && r.value == l && DirectMapped(old(State()), State(), l, p, length, perm % 0x100))
                && (AllocatorReady() ==>
                      MapOutcome(old(State()), if r.Done? then Done(State()) else Halted(r.why), l, p, length, perm % 0x100))
    {
      hide Tree, Grown, Leaf, Rewritten, RangeUnmapped, RangeOk, RewriteOk, NoRoom, RangeNodes, PageCount, KernelBacked,
        AllocMapped, DirectMapped, IsFirstRun, FreeRun, LengthOk, NeverEnds, MapOutcome, AllocStops, FramesReachable;
      var ramBacked := flags % 2 == 0;
      var regionKernel := flags / 2 % 2 == 1;
      var desiredIsPaddr := flags / 8 % 2 == 1;
      if ramBacked {
        if desired_addr == 0 {
          if regionKernel {
            r := MapAllocated(length, perm);
          } else {
            var _ :- pmm.Allocate(length / 0x1000);
            r := Halted(Unimplemented);
          }
        } else if regionKernel {
          var p_addr := WrapSub(desired_addr, KERNEL_VMB);
          if desired_addr <= KERNEL_VMB { return Halted(AssertFailed); }
          r := MapAt(desired_addr, p_addr, length, perm);
        } else {
          r := Halted(Unimplemented);
        }
      } else if desiredIsPaddr {
        var l_addr := if regionKernel then (desired_addr + KERNEL_VMB) % TWO64 else desired_addr;
        r := MapAt(l_addr, desired_addr, length, perm);
      } else {
        r := Halted(Unimplemented);
      }
    }

    /** Takes the pages of a range out of the current address space. */
    method Unmap(address: nat, length: nat) returns (r: Outcome<()>)
      requires Valid() && RangeOk(address, length)
      modifies this`mem, this`tables, this`pdir_current, heap`earlyAllocBase, pmm.bitmap.m_ptr
      ensures pmm.Valid()
      ensures r.Done? ==> Valid() && Unmapped(old(State()), State(), address, length)
      ensures r.Halted? && !NeverEnds(address, length) ==>
                && r.why != Remapped && !(RangeNodes(address, PageCount(address, length)) <= old(tables).Keys)
                && (AllocatorReady() ==>
                      r.why == HeapExhausted && NoRoom(old(State()), RangeNodes(address, PageCount(address, length))))
    {
      hide Tree, Grown, Rewritten, RangeOk, NoRoom, RangeNodes, PageCount, NeverEnds;
      r := UnmapPages(pdir_current, address, length);
      if r.Done? {
        SwapPageDirectory(pdir_current);
      }
    }
  }

  /** How map turns its arguments into addresses. */
  datatype MapTarget =
    | Anywhere
    | Fixed(l_addr: nat, p_addr: nat)
    | Refused(why: Halt)

  function Target(desired_addr: nat, flags: nat): MapTarget
    requires desired_addr < TWO64
  {
    var kernel := flags / 2 % 2 == 1;
    if flags % 2 == 0 then
      if !kernel then Refused(Unimplemented)
      else if desired_addr == 0 then Anywhere
      else if desired_addr <= KERNEL_VMB then Refused(AssertFailed)
      else Fixed(desired_addr, desired_addr - KERNEL_VMB)
    else if flags / 8 % 2 == 0 then Refused(Unimplemented)
    else Fixed(if kernel then (desired_addr + KERNEL_VMB) % TWO64 else desired_addr, desired_addr)
  }

  /** The flags word: 1 for unbacked memory, 2 for the kernel region, 4 for a fixed and 8 for a physical address. */
  function Flags(unbacked: bool, kernel: bool, fixed: bool, physical: bool, others: nat): nat {
    (if unbacked then 1 else 0) + (if kernel then 2 else 0) + (if fixed then 4 else 0) + (if physical then 8 else 0)
    + 16 * others
  }

  /** What each combination of flags asks for. */
  lemma TargetIs(addr: nat, unbacked: bool, kernel: bool, fixed: bool, physical: bool, others: nat)
    requires addr < TWO64
    ensures Target(addr, Flags(unbacked, kernel, fixed, physical, others)) ==
              if !unbacked && !kernel then Refused(Unimplemented)
              else if !unbacked && addr == 0 then Anywhere
              else if !unbacked && addr <= 0xFFFF_FFFF_8000_0000 then Refused(AssertFailed)
              else if !unbacked then Fixed(addr, addr - 0xFFFF_FFFF_8000_0000)
              else if !physical then Refused(Unimplemented)
              else if kernel then Fixed((addr + 0xFFFF_FFFF_8000_0000) % 0x1_0000_0000_0000_0000, addr)
              else Fixed(addr, addr)
  {
    FlagDigits(if unbacked then 1 else 0, if kernel then 1 else 0, if fixed then 1 else 0, if physical then 1 else 0,
               others);
  }

  lemma FlagDigits(a: nat, b: nat, c: nat, d: nat, e: nat)
    requires a <= 1 && b <= 1 && c <= 1 && d <= 1
    ensures var x := a + 2 * b + 4 * c + 8 * d + 16 * e; x % 2 == a && x / 2 % 2 == b && x / 8 % 2 == d
  {
    var x := a + 2 * b + 4 * c + 8 * d + 16 * e;
    Halve(a, b + 2 * c + 4 * d + 8 * e);
    Halve(b, c + 2 * d + 4 * e);
    Halve(c, d + 2 * e);
    Halve(d, e);
    Eighth(a + 2 * b + 4 * c, d + 2 * e);
  }

  lemma Halve(a: nat, y: nat)
    requires a <= 1
    ensures (a + 2 * y) / 2 == y && (a + 2 * y) % 2 == a
  {
  }

  lemma Eighth(a: nat, y: nat)
    requires a <= 7
    ensures (a + 8 * y) / 8 == y
  {
  }
}
