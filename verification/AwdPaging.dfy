/** The boot loader's paging code: a queue of regions, committed to page tables in one go. */
module AwdPaging {
  import opened Outcomes
  import opened Memory
  import opened PageTables
  import opened PageRanges
  import opened AddressSpaces
  import opened AwdAlloc

  const PAGING_QUEUE_MAX: nat := 10

  /** A queued mapping. Ends may be the last byte of the region or the first byte after it. */
  datatype Region = Region(phys_start: nat, phys_end: nat, virt_start: nat, virt_end: nat, attribute: nat) {
    /** The 64-bit difference the commit loop counts to. */
    function Size(): nat {
      (virt_end + TWO64 - virt_start % TWO64) % TWO64
    }

    function Pages(): nat {
      (Size() + 0xFFF) / 0x1000
    }
  }

  predicate RegionOk(r: Region) {
    && r.phys_start % PAGE_SIZE == 0 && r.virt_start % PAGE_SIZE == 0
    && r.phys_start < TWO64 && r.virt_start < TWO64 && r.virt_end < TWO64 && r.attribute < 0x100
    && r.Pages() <= VPN_COUNT
  }

  // ----- what a queue stands for: the last region covering a page wins -----

  predicate Covers(r: Region, vpn: nat)
    requires vpn < VPN_COUNT
  {
    PageOffset(r.virt_start, vpn) < r.Pages()
  }

  function RegionLeaf(r: Region, vpn: nat): nat
    requires vpn < VPN_COUNT
  {
    LeafWord(ToFrames(r.phys_start, r.attribute), PageOffset(r.virt_start, vpn))
  }

  function QueueLeaf(queue: seq<Region>, vpn: nat): nat
    requires vpn < VPN_COUNT
  {
    if queue == [] then 0
    else if Covers(queue[|queue| - 1], vpn) then RegionLeaf(queue[|queue| - 1], vpn)
    else QueueLeaf(queue[..|queue| - 1], vpn)
  }

  /** Region i is the last one that covers the page. */
  ghost predicate LastCovering(queue: seq<Region>, vpn: nat, i: nat)
    requires vpn < VPN_COUNT
  {
    && i < |queue| && Covers(queue[i], vpn)
    && forall j :: i < j < |queue| ==> !Covers(queue[j], vpn)
  }

  lemma {:induction false} QueueLeafIsLast(queue: seq<Region>, vpn: nat, i: nat)
    requires vpn < VPN_COUNT && LastCovering(queue, vpn, i)
    ensures QueueLeaf(queue, vpn) == RegionLeaf(queue[i], vpn)
  {
    var n := |queue| - 1;
    if i < n {
      assert !Covers(queue[n], vpn);
      QueueLeafIsLast(queue[..n], vpn, i);
    }
  }

  lemma {:induction false} QueueLeafUncovered(queue: seq<Region>, vpn: nat)
    requires vpn < VPN_COUNT && forall j :: 0 <= j < |queue| ==> !Covers(queue[j], vpn)
    ensures QueueLeaf(queue, vpn) == 0
  {
    if queue != [] {
      var n := |queue| - 1;
      assert !Covers(queue[n], vpn);
      QueueLeafUncovered(queue[..n], vpn);
    }
  }

  /** A committed queue in the processor's eyes: the last region covering a page decides its frame and attribute. */
  lemma CommitTranslates(s: Space, queue: seq<Region>, va: nat, i: nat)
    requires s.Valid() && Canonical(va)
    requires forall vpn: nat | vpn < VPN_COUNT :: s.LeafAt(vpn) == QueueLeaf(queue, vpn)
    requires LastCovering(queue, Vpn(va), i) && RegionOk(queue[i]) && queue[i].attribute % 2 == 1
    requires queue[i].phys_start + queue[i].Pages() * PAGE_SIZE <= PHYS_LIMIT
    ensures HardwareWalk(s.mem, s.root, va)
         == Page(queue[i].phys_start / PAGE_SIZE + PageOffset(queue[i].virt_start, Vpn(va)), queue[i].attribute)
  {
    hide Tree, WalkFrom, Leaf, QueueLeaf;
    WalkRefinesFlatMap(s.mem, s.tables, s.root, va);
    QueueLeafIsLast(queue, Vpn(va), i);
    var f := queue[i].phys_start / 0x1000 + PageOffset(queue[i].virt_start, Vpn(va));
    assert RegionLeaf(queue[i], Vpn(va)) == f * 0x1000 + queue[i].attribute;
    FrameAndFlags(f, queue[i].attribute);
  }

  /**
   A region covers the addresses from its start to its end rounded up to a page, and sends each to the physical
   address as far from the region's physical start.
  */
  lemma RegionCovers(r: Region, va: nat)
    requires RegionOk(r) && r.virt_start <= r.virt_end && Canonical(va)
    requires CanonicalRange(r.virt_start, PageUp(r.virt_end - r.virt_start) / 0x1000)
    ensures Covers(r, Vpn(va)) <==> r.virt_start <= va < r.virt_start + PageUp(r.virt_end - r.virt_start)
    ensures Covers(r, Vpn(va)) && r.attribute % 2 == 1
            && r.phys_start + PageUp(r.virt_end - r.virt_start) <= 0x10_0000_0000_0000 ==>
              LeafTranslation(RegionLeaf(r, Vpn(va))) == Page((r.phys_start + (va - r.virt_start)) / 0x1000, r.attribute)
  {
    RegionPages(r);
    var n := PageUp(r.virt_end - r.virt_start) / 0x1000;
    assert n * 0x1000 == PageUp(r.virt_end - r.virt_start);
    OffsetInRange(r.virt_start, n, va);
    if Covers(r, Vpn(va)) {
      var d := PageOffset(r.virt_start, Vpn(va));
      FrameOfOffset(r.phys_start, va - r.virt_start);
      if r.attribute % 2 == 1 && r.phys_start + PageUp(r.virt_end - r.virt_start) <= 0x10_0000_0000_0000 {
        assert Cursor(r.phys_start, d) == (r.phys_start / 0x1000 + d) * 0x1000;
        FrameAndFlags(r.phys_start / 0x1000 + d, r.attribute);
      }
    }
  }

  lemma RegionPages(r: Region)
    requires r.virt_start <= r.virt_end < TWO64
    ensures r.Size() == r.virt_end - r.virt_start && r.Pages() == PageUp(r.virt_end - r.virt_start) / 0x1000
  {
  }

  lemma FrameOfOffset(p: nat, d: nat)
    requires p % 0x1000 == 0
    ensures (p + d) / 0x1000 == p / 0x1000 + d / 0x1000
  {
    assert p == 0x1000 * (p / 0x1000);
  }

  /**
   The committed tables, address by address: the last queued region that contains the address, its end rounded up
   to a page, sends it to the physical byte at the same distance.
  */
  lemma CommittedAddress(s: Space, queue: seq<Region>, va: nat, i: nat)
    requires s.Valid() && Canonical(va) && i < |queue|
    requires forall vpn: nat | vpn < VPN_COUNT :: s.LeafAt(vpn) == QueueLeaf(queue, vpn)
    requires forall j :: i <= j < |queue| ==>
               && RegionOk(queue[j]) && queue[j].virt_start <= queue[j].virt_end
               && CanonicalRange(queue[j].virt_start, PageUp(queue[j].virt_end - queue[j].virt_start) / 0x1000)
    requires queue[i].virt_start <= va < queue[i].virt_start + PageUp(queue[i].virt_end - queue[i].virt_start)
    requires forall j :: i < j < |queue| ==>
               !(queue[j].virt_start <= va < queue[j].virt_start + PageUp(queue[j].virt_end - queue[j].virt_start))
    requires queue[i].attribute % 2 == 1
    requires queue[i].phys_start + PageUp(queue[i].virt_end - queue[i].virt_start) <= 0x10_0000_0000_0000
    ensures HardwareWalk(s.mem, s.root, va)
         == Page((queue[i].phys_start + (va - queue[i].virt_start)) / 0x1000, queue[i].attribute)
  {
    hide Tree, WalkFrom, Leaf, QueueLeaf, Covers, RegionLeaf, LeafTranslation;
    WalkRefinesFlatMap(s.mem, s.tables, s.root, va);
    RegionCovers(queue[i], va);
    forall j | i < j < |queue| ensures !Covers(queue[j], Vpn(va)) {
      RegionCovers(queue[j], va);
    }
    QueueLeafIsLast(queue, Vpn(va), i);
  }

  /** Pages in no region are not translated. */
  lemma UncoveredFaults(s: Space, queue: seq<Region>, va: nat)
    requires s.Valid() && Canonical(va)
    requires forall vpn: nat | vpn < VPN_COUNT :: s.LeafAt(vpn) == QueueLeaf(queue, vpn)
    requires forall j :: 0 <= j < |queue| ==> !Covers(queue[j], Vpn(va))
    ensures HardwareWalk(s.mem, s.root, va) == Fault
  {
    hide Tree, WalkFrom, Leaf, QueueLeaf;
    WalkRefinesFlatMap(s.mem, s.tables, s.root, va);
    QueueLeafUncovered(queue, Vpn(va));
  }

  /** An end that names the last byte covers the same pages as one that names the byte after it. */
  lemma InclusiveEndSamePages(r: Region)
    requires r.virt_start < r.virt_end < TWO64 && r.Size() % PAGE_SIZE == 0
    ensures r.(virt_end := r.virt_end - 1).Pages() == r.Pages()
    ensures forall vpn: nat | vpn < VPN_COUNT :: Covers(r.(virt_end := r.virt_end - 1), vpn) == Covers(r, vpn)
  {
    assert r.Size() == r.virt_end - r.virt_start;
    assert r.(virt_end := r.virt_end - 1).Size() == r.Size() - 1;
  }

  /** The tables a queue passes through. */
  function QueueNodes(queue: seq<Region>): set<Node> {
    if queue == [] then {} else
      QueueNodes(queue[..|queue| - 1]) + RangeNodes(queue[|queue| - 1].virt_start, queue[|queue| - 1].Pages())
  }

  // ----- one new table -----

  ghost predicate ZeroBetween(m: Mem, a: nat, b: nat) {
    b <= |m| && forall k :: a <= k < b ==> m[k] == 0
  }

  /** Masking the low two bits of a link, in 32 bits, leaves the table's address. */
  lemma SlotWord(v: Space, n: Node, i: nat)
    requires v.Valid() && v.limit < TWO32 && n in v.tables && n.level >= 2 && i < ENTRIES
    ensures TableOk(v.mem, n, v.tables[n])
    ensures Child(n, i) !in v.tables ==> Entry(v.mem, v.tables[n], i) == 0
    ensures Child(n, i) in v.tables ==>
              var e := Entry(v.mem, v.tables[n], i);
              e != 0 && e % TWO32 - e % TWO32 % 4 == v.tables[Child(n, i)]
  {
    assert TableOk(v.mem, n, v.tables[n]);
    assert Entry(v.mem, v.tables[n], i) == LinkWord(v.tables, n, i);
    if Child(n, i) in v.tables {
      assert TableOk(v.mem, Child(n, i), v.tables[Child(n, i)]);
      MaskedLink(v.tables[Child(n, i)]);
    }
  }

  lemma MaskedLink(t: nat)
    requires t % PAGE_SIZE == 0 && t + LINK_FLAGS < TWO32
    ensures var e := t + LINK_FLAGS; e != 0 && e % TWO32 - e % TWO32 % 4 == t
  {
    assert t == 0x1000 * (t / 0x1000);
    LowTwoBits(t / 0x1000);
  }

  lemma LowTwoBits(q: nat)
    ensures (0x1000 * q + 3) % 4 == 3
  {
  }

  /** On a heap that is zero above its cursor, a fresh page needs no clearing before it is linked. */
  lemma LinkWithoutClearing(v: Space, n: Node, i: nat, t: nat)
    requires CanAdd(v, n, i, t) && ZeroBetween(v.mem, v.base, v.limit)
    ensures t + PAGE_SIZE <= |v.mem| && t % PAGE_SIZE == 0
    ensures var v' := v.(mem := SetEntry(v.mem, v.tables[n], i, t + LINK_FLAGS), tables := v.tables[Child(n, i) := t],
                         base := t + PAGE_SIZE);
            v'.Valid() && Grown(v, v') && SameLeaves(v, v') && ZeroBetween(v'.mem, v'.base, v'.limit)
  {
    hide Tree, Grown, InMemory, SameLeaves, Linked, Injective, Connected;
    FreshPage(v, n, i, t);
    assert ZeroFill(v.mem, t, PAGE_SIZE) == v.mem;
    GrowByOne(v, n, i, t, v.used);
    StoreWordEffect(v.mem, v.tables[n] + 8 * i, t + LINK_FLAGS);
  }

  lemma WriteLeafKeepsZero(v: Space, vpn: nat, word: nat)
    requires v.Valid() && NodeOf(1, vpn) in v.tables && word < TWO64 && ZeroBetween(v.mem, v.base, v.limit)
    requires TableOk(v.mem, NodeOf(1, vpn), v.tables[NodeOf(1, vpn)])
    ensures ZeroBetween(WithLeaf(v, vpn, word).mem, v.base, v.limit)
  {
    StoreWordEffect(v.mem, v.tables[NodeOf(1, vpn)] + 8 * Index(1, vpn), word);
  }

  // ----- passes over the queue -----

  lemma RegionStart(r: Region)
    requires RegionOk(r)
    ensures RewriteOk(ToFrames(r.phys_start, r.attribute)) && r.Pages() <= VPN_COUNT
    ensures 0 < r.Size() <==> 0 < r.Pages()
    ensures RangeNodes(r.virt_start, 0) == {}
    ensures ToFrames(r.phys_start, r.attribute).frames == r.phys_start
    ensures ToFrames(r.phys_start, r.attribute).flags == r.attribute
  {
  }

  /** One round of the loop over a region, with 64-bit arithmetic. */
  lemma RegionStep(r: Region, k: nat)
    requires RegionOk(r) && k < r.Pages()
    ensures TWO64 == 0x1_0000_0000_0000_0000
    ensures Vpn((r.virt_start + k * 0x1000) % TWO64) == PageAt(r.virt_start, k)
    ensures (r.phys_start + k * 0x1000) % TWO64 == Cursor(r.phys_start, k)
    ensures k * 0x1000 + 0x1000 < r.Size() <==> k + 1 < r.Pages()
  {
    PageAtAddress(r.virt_start, k);
    VpnWraps(r.virt_start + k * 0x1000);
  }

  lemma QueueNodesStep(queue: seq<Region>, i: nat)
    requires i < |queue|
    ensures QueueNodes(queue[..i + 1]) == QueueNodes(queue[..i]) + RangeNodes(queue[i].virt_start, queue[i].Pages())
    ensures QueueNodes(queue[..i + 1]) <= QueueNodes(queue)
  {
    assert queue[..i + 1][..i] == queue[..i];
    QueueNodesPrefix(queue, i + 1);
  }

  lemma {:induction false} QueueNodesPrefix(queue: seq<Region>, i: nat)
    requires i <= |queue|
    ensures QueueNodes(queue[..i]) <= QueueNodes(queue)
  {
    if i == |queue| {
      assert queue[..i] == queue;
    } else {
      var n := |queue| - 1;
      assert queue[..n][..i] == queue[..i];
      QueueNodesPrefix(queue[..n], i);
    }
  }

  /** Mapping region i on top of the first i makes every leaf that of the first i + 1. */
  lemma QueueLeafStep(queue: seq<Region>, i: nat, s: Space, t: Space)
    requires i < |queue| && s.Valid() && t.Valid()
    requires Rewritten(s, t, queue[i].virt_start, queue[i].Pages(), ToFrames(queue[i].phys_start, queue[i].attribute))
    requires forall vpn: nat | vpn < VPN_COUNT :: s.LeafAt(vpn) == QueueLeaf(queue[..i], vpn)
    ensures forall vpn: nat | vpn < VPN_COUNT :: t.LeafAt(vpn) == QueueLeaf(queue[..i + 1], vpn)
  {
    hide Tree, Leaf;
    assert queue[..i + 1][..i] == queue[..i];
  }

  lemma NoRoomFromRoot(v: Space, nodes: set<Node>)
    requires v.base <= v.limit && NoRoom(v, nodes)
    ensures PageUp(v.base) + 0x1000 * |nodes| > v.limit
  {
    SubsetSize(nodes - v.tables.Keys, nodes);
  }

  lemma UntouchedBelow(v: Space, v': Space)
    requires v.Valid() && Grown(v, v') && v.tables.Keys == {Node(4, 0)}
    ensures v'.base >= v.base && |v'.mem| == |v.mem|
    ensures forall k :: 0 <= k < v.base && !(v.root <= k < v.root + PAGE_SIZE) ==> v'.mem[k] == v.mem[k]
  {
    forall k | 0 <= k < v.base && !(v.root <= k < v.root + PAGE_SIZE) ensures v'.mem[k] == v.mem[k] {
      forall n | n in v'.tables ensures k < v'.tables[n] || v'.tables[n] + PAGE_SIZE <= k {
        if n in v.tables {
          assert n == Node(4, 0);
        }
      }
      assert OutsideTables(v'.tables, k);
    }
  }

  class Paging {
    const machine: Machine
    const alloc: Allocator
    const paging_pml4: nat
    var paging_queue: seq<Region>
    var cr3: nat
    ghost var tables: Tables

    constructor (machine: Machine, alloc: Allocator, pml4: nat)
      ensures this.machine == machine && this.alloc == alloc && paging_pml4 == pml4 && paging_queue == []
    {
      this.machine, this.alloc, paging_pml4, paging_queue, cr3, tables := machine, alloc, pml4, [], 0, map[];
    }

    /** The allocator refuses a block that ends at its limit, so the last byte is never used. */
    ghost function State(): Space
      reads this, machine, alloc
      ensures State().tables == tables
    {
      Space(machine.mem, tables, paging_pml4, alloc.heap_phys_current,
            if alloc.heap_phys_limit == 0 then 0 else alloc.heap_phys_limit - 1, [])
    }

    ghost predicate Valid()
      reads this, machine, alloc
      ensures Valid() ==> State().Valid()
    {
      && alloc.alloc_enabled && alloc.heap_phys_limit <= TWO32
      && State().Valid() && State().base < alloc.heap_phys_limit
      && ZeroBetween(State().mem, State().base, State().limit)
    }

    /** The queue has room for ten regions and no check of its own. */
    method QueueMapping(phys_start: nat, phys_end: nat, virt_start: nat, virt_end: nat, attribute: nat)
      requires |paging_queue| < PAGING_QUEUE_MAX
      modifies this`paging_queue
      ensures paging_queue == old(paging_queue) + [Region(phys_start, phys_end, virt_start, virt_end, attribute)]
    {
      paging_queue := paging_queue + [Region(phys_start, phys_end, virt_start, virt_end, attribute)];
    }

    /** The table behind a slot, created when missing. */
    method NextTable(table: nat, index: nat, ghost n: Node) returns (r: Outcome<nat>)
      requires Valid() && n in tables && n.level >= 2 && index < ENTRIES && table == tables[n]
      modifies machine`mem, alloc`heap_phys_current, this`tables
      ensures r.Done? ==>
                && Valid() && Grown(old(State()), State()) && SameLeaves(old(State()), State())
                && tables.Keys == old(tables).Keys + {Child(n, index)}
                && r.value == tables[Child(n, index)]
      ensures r.Halted? ==> r.why == HeapExhausted && NoRoom(old(State()), {Child(n, index)})
    {
      hide Tree, Grown, InMemory, NoRoom, SameLeaves, Linked, Injective, Connected, SetEntry, ZeroBetween, LinkWord;
      SlotWord(State(), n, index);
      GrownReflexive(State());
      SameLeavesReflexive(State());
      var e := Entry(machine.mem, table, index);
      if e == 0 {
        r := NewTable(table, index, n);
      } else {
        KeysStep(tables.Keys, tables.Keys, {}, {Child(n, index)});
        return Done(e % TWO32 - e % TWO32 % 4);
      }
    }

    /** The creating branch. The new page is not cleared. */
    method NewTable(table: nat, index: nat, ghost n: Node) returns (r: Outcome<nat>)
      requires Valid() && n in tables && n.level >= 2 && index < ENTRIES && table == tables[n]
      requires Child(n, index) !in tables && TableOk(machine.mem, n, tables[n])
      modifies machine`mem, alloc`heap_phys_current, this`tables
      ensures r.Done? ==>
                && Valid() && Grown(old(State()), State()) && SameLeaves(old(State()), State())
                && tables.Keys == old(tables).Keys + {Child(n, index)}
                && r.value == tables[Child(n, index)]
      ensures r.Halted? ==> r.why == HeapExhausted && NoRoom(old(State()), {Child(n, index)})
    {
      hide Tree, Grown, InMemory, NoRoom, SameLeaves, Linked, Injective, Connected, SetEntry, ZeroBetween, AlignUp, PageUp;
      ghost var v := State();
      NoRoomForOne(v, Child(n, index));
      PageUpIsAlignUp(alloc.heap_phys_current);
      var t :- alloc.MallocAligned(0x1000, 0x1000);
      assert t == PageUp(v.base);
      LinkWithoutClearing(v, n, index, t);
      BitOrPage(t, LINK_FLAGS);
      machine.mem := SetEntry(machine.mem, table, index, BitOr(t, LINK_FLAGS));
      tables := tables[Child(n, index) := t];
      ghost var v' := State();
      assert v' == v.(mem := SetEntry(v.mem, v.tables[n], index, t + LINK_FLAGS),
                      tables := v.tables[Child(n, index) := t], base := t + PAGE_SIZE);
      assert v'.Valid() && Grown(v, v') && SameLeaves(v, v');
      return Done(t);
    }

    /** NextTable as one step of a walk that began in state v and has made sure of the tables in sofar. */
    method NextTableFor(table: nat, index: nat, ghost n: Node, ghost v: Space, ghost sofar: set<Node>,
                        ghost target: set<Node>)
      returns (r: Outcome<nat>)
      requires Valid() && n in tables && n.level >= 2 && index < ENTRIES && table == tables[n]
      requires v.Valid() && Grown(v, State()) && SameLeaves(v, State()) && tables.Keys == v.tables.Keys + sofar
      requires sofar + {Child(n, index)} <= target
      modifies machine`mem, alloc`heap_phys_current, this`tables
      ensures r.Done? ==>
                && Valid() && Grown(v, State()) && SameLeaves(v, State())
                && tables.Keys == v.tables.Keys + sofar + {Child(n, index)}
                && r.value == tables[Child(n, index)]
      ensures r.Halted? ==> r.why == HeapExhausted && NoRoom(v, target)
    {
      hide Tree, Grown, InMemory, NoRoom, SameLeaves, Linked, Injective, Connected;
      ghost var before := State();
      r := NextTable(table, index, n);
      if r.Done? {
        GrownTransitive(v, before, State());
        SameLeavesTransitive(v, before, State());
      } else {
        NoRoomBefore(v, before, sofar, {Child(n, index)}, target);
      }
    }

    /** The leaf table of an address: the creating or loading of P3, P2 and P1. */
    method LeafTable(virt: nat) returns (r: Outcome<nat>)
      requires Valid()
      modifies machine`mem, alloc`heap_phys_current, this`tables
      ensures r.Done? ==>
                && Valid() && Grown(old(State()), State()) && SameLeaves(old(State()), State())
                && tables.Keys == old(tables).Keys + Path(Vpn(virt))
                && r.value == tables[NodeOf(1, Vpn(virt))]
      ensures r.Halted? ==> r.why == HeapExhausted && NoRoom(old(State()), Path(Vpn(virt)))
    {
      hide Tree, Grown, InMemory, NoRoom, SameLeaves, Linked, Injective, Connected;
      ghost var v := State();
      ghost var vpn := Vpn(virt);
      AddressIndices(virt);
      PathSteps(vpn);
      var i4, i3, i2 := virt / 0x80_0000_0000 % 512, virt / 0x4000_0000 % 512, virt / 0x20_0000 % 512;
      hide Vpn, Prefix, Index, NodeOf, Child, Parent;
      RootKnown(v);
      GrownReflexive(v);
      SameLeavesReflexive(v);
      var p3 :- NextTableFor(paging_pml4, i4, Node(4, 0), v, {}, Path(vpn));
      var p2 :- NextTableFor(p3, i3, NodeOf(3, vpn), v, {NodeOf(3, vpn)}, Path(vpn));
      r := NextTableFor(p2, i2, NodeOf(2, vpn), v, {NodeOf(3, vpn), NodeOf(2, vpn)}, Path(vpn));
    }

    /** The leaf table for page k of n of a pass that began in state v. */
    method NextLeafTable(virt: nat, ghost v: Space, ghost addr: nat, ghost n: nat, ghost k: nat, ghost w: Rewrite)
      returns (r: Outcome<nat>)
      requires Valid() && k < n && Vpn(virt) == PageAt(addr, k)
      requires v.Valid() && Grown(v, State()) && Rewritten(v, State(), addr, k, w)
      requires tables.Keys == v.tables.Keys + RangeNodes(addr, k)
      modifies machine`mem, alloc`heap_phys_current, this`tables
      ensures r.Done? ==>
                && Valid() && Grown(v, State()) && Rewritten(v, State(), addr, k, w)
                && tables.Keys == v.tables.Keys + RangeNodes(addr, k + 1)
                && NodeOf(1, PageAt(addr, k)) in tables && r.value == tables[NodeOf(1, PageAt(addr, k))]
      ensures r.Halted? ==> r.why == HeapExhausted && NoRoom(v, RangeNodes(addr, n))
    {
      hide Tree, Grown, InMemory, NoRoom, SameLeaves, Linked, Injective, Connected, Rewritten, PageAt, PageOffset,
        ZeroBetween, RangeNodes, Vpn, Prefix;
      ghost var s := State();
      RangeSteps(addr, k, n);
      KeysStep(tables.Keys, v.tables.Keys, RangeNodes(addr, k), Path(PageAt(addr, k)));
      r := LeafTable(virt);
      if r.Halted? {
        NoRoomInPass(v, s, addr, k, n);
      } else {
        GrownTransitive(v, s, State());
        RewrittenGrows(v, s, State(), addr, k, w);
      }
    }

    /** Maps page k of n of a pass that began in state v. */
    method MapPage(phys: nat, virt: nat, attr: nat, ghost v: Space, ghost addr: nat, ghost n: nat, ghost k: nat,
                   ghost w: Rewrite)
      returns (r: Outcome<()>)
      requires Valid() && k < n <= VPN_COUNT && Vpn(virt) == PageAt(addr, k)
      requires w.ToFrames? && RewriteOk(w) && w.flags == attr && phys == Cursor(w.frames, k)
      requires v.Valid() && Grown(v, State()) && Rewritten(v, State(), addr, k, w)
      requires tables.Keys == v.tables.Keys + RangeNodes(addr, k)
      modifies machine`mem, alloc`heap_phys_current, this`tables
      ensures r.Done? ==>
                && Valid() && Grown(v, State()) && Rewritten(v, State(), addr, k + 1, w)
                && tables.Keys == v.tables.Keys + RangeNodes(addr, k + 1)
      ensures r.Halted? ==> r.why == HeapExhausted && NoRoom(v, RangeNodes(addr, n))
    {
      hide Tree, Grown, InMemory, NoRoom, SameLeaves, Linked, Injective, Connected, Rewritten, PageAt, PageOffset,
        SetEntry, StoreWord, TableOk, RangeNodes, ZeroBetween, Prefix, Cursor;
      var p1 :- NextLeafTable(virt, v, addr, n, k, w);
      ghost var t := State();
      ghost var vpn := PageAt(addr, k);
      RewriteStep(v, t, addr, k, w);
      WriteLeafKeepsZero(t, vpn, LeafWord(w, k));
      AddressIndices(virt);
      CursorPage(w.frames, k);
      BitOrPage(phys, attr);
      machine.mem := SetEntry(machine.mem, p1, virt / 0x1000 % 512, BitOr(phys, attr));
      assert State() == WithLeaf(t, vpn, LeafWord(w, k));
      return Done(());
    }

    /** All pages of one region, whatever was mapped before. */
    method MapRegion(region: Region) returns (r: Outcome<()>)
      requires Valid() && RegionOk(region)
      modifies machine`mem, alloc`heap_phys_current, this`tables
      ensures r.Done? ==>
                && Valid() && Grown(old(State()), State())
                && Rewritten(old(State()), State(), region.virt_start, region.Pages(),
                             ToFrames(region.phys_start, region.attribute))
                && tables.Keys == old(tables).Keys + RangeNodes(region.virt_start, region.Pages())
      ensures r.Halted? ==> r.why == HeapExhausted && NoRoom(old(State()), RangeNodes(region.virt_start, region.Pages()))
    {
      hide *;
      ghost var v := State();
      ghost var w := ToFrames(region.phys_start, region.attribute);
      ghost var n := region.Pages();
      ghost var k := 0;
      var sz := region.Size();
      var j := 0;
      RegionStart(region);
      RewriteStart(v, region.virt_start, w);
      KeysStep(tables.Keys, v.tables.Keys, {}, {});
      while j < sz
        invariant j == k * 0x1000 && k <= n && (j < sz <==> k < n)
        invariant Valid() && Grown(v, State()) && Rewritten(v, State(), region.virt_start, k, w)
        invariant tables.Keys == v.tables.Keys + RangeNodes(region.virt_start, k)
        decreases n - k
      {
        RegionStep(region, k);
        r := MapPage((region.phys_start + j) % TWO64, (region.virt_start + j) % TWO64, region.attribute,
                     v, region.virt_start, n, k, w);
        if r.Halted? { return; }
        j := j + 0x1000;
        k := k + 1;
      }
      return Done(());
    }

    /** Clears the root table, word by word. */
    method ClearRoot()
      requires paging_pml4 + PAGE_SIZE <= |machine.mem|
      modifies machine`mem
      ensures |machine.mem| == |old(machine.mem)|
      ensures forall k :: 0 <= k < |machine.mem| ==>
                machine.mem[k] == if paging_pml4 <= k < paging_pml4 + PAGE_SIZE then 0 else old(machine.mem)[k]
    {
      ToBytesZero(8);
      for i := 0 to 512
        invariant |machine.mem| == |old(machine.mem)|
        invariant forall k :: 0 <= k < |machine.mem| ==>
                    machine.mem[k] == if paging_pml4 <= k < paging_pml4 + 8 * i then 0 else old(machine.mem)[k]
      {
        machine.mem := SetEntry(machine.mem, paging_pml4, i, 0);
      }
    }

    /**
     Builds the page tables for the whole queue and loads them. Every virtual page gets the leaf of the last
     region that covers it. Memory outside the root table and the pages newly allocated keeps its contents.
    */
    method Commit() returns (r: Outcome<()>)
      requires alloc.alloc_enabled && alloc.heap_phys_current < alloc.heap_phys_limit <= TWO32
      requires alloc.heap_phys_limit <= |machine.mem| <= PHYS_LIMIT
      requires ZeroBetween(machine.mem, alloc.heap_phys_current, alloc.heap_phys_limit)
      requires paging_pml4 % PAGE_SIZE == 0 && paging_pml4 + PAGE_SIZE <= alloc.heap_phys_current
      requires forall q :: q in paging_queue ==> RegionOk(q)
      modifies machine`mem, alloc`heap_phys_current, this`tables, this`cr3
      ensures r.Done? ==>
                && Valid() && cr3 == paging_pml4 && |machine.mem| == |old(machine.mem)|
                && alloc.heap_phys_current >= old(alloc.heap_phys_current)
                && (forall vpn: nat | vpn < VPN_COUNT :: State().LeafAt(vpn) == QueueLeaf(paging_queue, vpn))
                && (forall k | 0 <= k < old(alloc.heap_phys_current) && !(paging_pml4 <= k < paging_pml4 + PAGE_SIZE) ::
                      machine.mem[k] == old(machine.mem)[k])
      ensures r.Halted? ==>
                && r.why == HeapExhausted
                && PageUp(old(alloc.heap_phys_current)) + 0x1000 * |QueueNodes(paging_queue)| >= alloc.heap_phys_limit
    {
      hide Tree, Leaf, Grown, NoRoom, ZeroBetween, RegionOk, QueueLeaf, QueueNodes, PageUp;
      EmptyRoot();
      ghost var v := State();
      r := CommitQueue(v);
      if r.Halted? {
        NoRoomFromRoot(v, QueueNodes(paging_queue));
        return;
      }
      UntouchedBelow(v, State());
      cr3 := paging_pml4;
    }

    /** The cleared root is the tree that maps nothing. */
    method EmptyRoot()
      requires alloc.alloc_enabled && alloc.heap_phys_current < alloc.heap_phys_limit <= TWO32
      requires alloc.heap_phys_limit <= |machine.mem| <= PHYS_LIMIT
      requires ZeroBetween(machine.mem, alloc.heap_phys_current, alloc.heap_phys_limit)
      requires paging_pml4 % PAGE_SIZE == 0 && paging_pml4 + PAGE_SIZE <= alloc.heap_phys_current
      modifies machine`mem, this`tables
      ensures Valid() && tables.Keys == {Node(4, 0)} && MapsNothing(State())
      ensures |machine.mem| == |old(machine.mem)|
      ensures forall k | 0 <= k < |machine.mem| && !(paging_pml4 <= k < paging_pml4 + PAGE_SIZE) ::
                machine.mem[k] == old(machine.mem)[k]
    {
      hide Tree, Leaf;
      ClearRoot();
      tables := map[Node(4, 0) := paging_pml4];
      EmptyTree(machine.mem, paging_pml4);
    }

    /** The loops over the queue, starting from the tree v that maps nothing. */
    method CommitQueue(ghost v: Space) returns (r: Outcome<()>)
      requires Valid() && v == State() && MapsNothing(v)
      requires forall q :: q in paging_queue ==> RegionOk(q)
      modifies machine`mem, alloc`heap_phys_current, this`tables
      ensures r.Done? ==>
                && Valid() && Grown(v, State())
                && forall vpn: nat | vpn < VPN_COUNT :: State().LeafAt(vpn) == QueueLeaf(paging_queue, vpn)
      ensures r.Halted? ==> r.why == HeapExhausted && NoRoom(v, QueueNodes(paging_queue))
    {
      hide Tree, Leaf, Grown, Rewritten, NoRoom, RangeNodes, RegionOk, ZeroBetween;
      GrownReflexive(v);
      var i := 0;
      while i < |paging_queue|
        invariant i <= |paging_queue|
        invariant Valid() && Grown(v, State())
        invariant tables.Keys == v.tables.Keys + QueueNodes(paging_queue[..i])
        invariant forall vpn: nat | vpn < VPN_COUNT :: State().LeafAt(vpn) == QueueLeaf(paging_queue[..i], vpn)
      {
        ghost var s := State();
        var region := paging_queue[i];
        QueueNodesStep(paging_queue, i);
        KeysStep(tables.Keys, v.tables.Keys, QueueNodes(paging_queue[..i]), RangeNodes(region.virt_start, region.Pages()));
        r := MapRegion(region);
        if r.Halted? {
          NoRoomBefore(v, s, QueueNodes(paging_queue[..i]), RangeNodes(region.virt_start, region.Pages()),
                       QueueNodes(paging_queue));
          return;
        }
        GrownTransitive(v, s, State());
        QueueLeafStep(paging_queue, i, s, State());
        i := i + 1;
      }
      assert paging_queue[..i] == paging_queue;
      return Done(());
    }
  }
}
