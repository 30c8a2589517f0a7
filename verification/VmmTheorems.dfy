/**
 What Lobo's mapping calls guarantee, read off the relations their contracts establish: the processor's
 translations before and after, the number of tables made, and properties of whole runs of calls.
*/
module VmmTheorems {
  import opened Outcomes
  import opened Memory
  import opened PageTables
  import opened PageRanges
  import opened KernelMemory
  import opened AddressSpaces

  // ----- translations -----

  function Walk(v: Space, va: nat): Translation {
    HardwareWalk(v.mem, v.root, va)
  }

  lemma WalkIsLeaf(v: Space, va: nat)
    requires v.Valid() && Canonical(va)
    ensures Walk(v, va) == LeafTranslation(v.LeafAt(Vpn(va)))
  {
    WalkRefinesFlatMap(v.mem, v.tables, v.root, va);
  }

  /** n frames from p on, all within the physical address width. */
  predicate FramesOk(p: nat, n: nat) {
    p % PAGE_SIZE == 0 && p + n * PAGE_SIZE <= PHYS_LIMIT
  }

  lemma MappedLeafTranslation(p: nat, d: nat, flags: nat)
    requires p % 0x1000 == 0 && p + d * 0x1000 + 0x1000 <= PHYS_LIMIT && flags < 0x100 && flags % 2 == 1
    ensures LeafTranslation(LeafWord(ToFrames(p, flags), d)) == Page(p / 0x1000 + d, flags)
  {
    FrameAndFlags(p / 0x1000 + d, flags);
    assert LeafWord(ToFrames(p, flags), d) == (p / 0x1000 + d) * 0x1000 + flags;
  }

  /**
   Mapping refines the flat map: the processor sends every address of the range to its frame with the given
   flags, and translates every other canonical address exactly as before.
  */
  lemma MapTranslates(v: Space, v': Space, addr: nat, p: nat, length: nat, flags: nat, va: nat)
    requires v.Valid() && v'.Valid() && DirectMapped(v, v', addr, p, length, flags)
    requires CanonicalRange(addr, PageCount(addr, length)) && Canonical(va)
    requires FramesOk(p, PageCount(addr, length)) && flags < 0x100 && flags % 2 == 1
    ensures Walk(v', va) == if addr <= va < addr + PageCount(addr, length) * 0x1000
                            then Page(p / 0x1000 + (va - addr) / 0x1000, flags) else Walk(v, va)
  {
    hide Tree, Grown, WalkFrom, RangeUnmapped;
    var n := PageCount(addr, length);
    WalkIsLeaf(v, va);
    WalkIsLeaf(v', va);
    OffsetInRange(addr, n, va);
    if InRange(addr, n, va) {
      MappedLeafTranslation(p, PageOffset(addr, Vpn(va)), flags);
    }
  }

  /** After unmapping, the range faults and everything else translates as before. */
  lemma UnmapTranslates(v: Space, v': Space, addr: nat, length: nat, va: nat)
    requires v.Valid() && v'.Valid() && Unmapped(v, v', addr, length)
    requires CanonicalRange(addr, PageCount(addr, length)) && Canonical(va)
    ensures Walk(v', va) == if addr <= va < addr + PageCount(addr, length) * 0x1000 then Fault else Walk(v, va)
    ensures addr <= va < addr + PageCount(addr, length) * 0x1000 ==> v'.LeafAt(Vpn(va)) == 2
  {
    hide Tree, Grown, WalkFrom;
    WalkIsLeaf(v, va);
    WalkIsLeaf(v', va);
    OffsetInRange(addr, PageCount(addr, length), va);
  }

  /**
   Unmap undoes map for every address, canonical range or not; the same range can be mapped again; and no
   table is missing any more, so neither the unmapping nor the second mapping needs the allocator.
  */
  lemma UnmapUndoesMap(v: Space, v1: Space, v2: Space, addr: nat, p: nat, length: nat, flags: nat, va: nat)
    requires v.Valid() && v1.Valid() && v2.Valid()
    requires DirectMapped(v, v1, addr, p, length, flags) && Unmapped(v1, v2, addr, length)
    ensures Walk(v2, va) == Walk(v, va)
    ensures RangeUnmapped(v2, addr, PageCount(addr, length))
    ensures RangeNodes(addr, PageCount(addr, length)) <= v1.tables.Keys && v2.tables.Keys == v1.tables.Keys
    ensures v2.base == v1.base && v2.used == v1.used
  {
    hide Tree, WalkFrom, Grown, RangeUnmapped, Rewritten;
    var n := PageCount(addr, length);
    SameKeysSameBase(v1, v2, RangeNodes(addr, n));
    LeavesUndone(v, v1, v2, addr, n, ToFrames(p, flags));
    if Canonical(va) {
      WalkIsLeaf(v, va);
      WalkIsLeaf(v2, va);
    }
  }

  lemma LeavesUndone(v: Space, v1: Space, v2: Space, addr: nat, n: nat, w: Rewrite)
    requires v.Valid() && v1.Valid() && v2.Valid() && RangeUnmapped(v, addr, n)
    requires Rewritten(v, v1, addr, n, w) && Rewritten(v1, v2, addr, n, ToNothing)
    ensures RangeUnmapped(v2, addr, n)
    ensures forall vpn: nat | vpn < VPN_COUNT :: LeafTranslation(v2.LeafAt(vpn)) == LeafTranslation(v.LeafAt(vpn))
  {
    hide Tree, Leaf;
    forall vpn: nat | vpn < VPN_COUNT
      ensures LeafTranslation(v2.LeafAt(vpn)) == LeafTranslation(v.LeafAt(vpn))
    {
      assert v1.LeafAt(vpn) == if PageOffset(addr, vpn) < n then LeafWord(w, PageOffset(addr, vpn)) else v.LeafAt(vpn);
    }
  }

  lemma SameKeysSameBase(v: Space, v': Space, nodes: set<Node>)
    requires Grown(v, v') && v'.tables.Keys == v.tables.Keys + nodes && nodes <= v.tables.Keys
    ensures v'.tables.Keys == v.tables.Keys
    ensures v'.base == v.base && v'.used == v.used
  {
    assert v'.tables.Keys == v.tables.Keys;
    assert |v'.tables| == |v'.tables.Keys| && |v.tables| == |v.tables.Keys|;
  }

  /** A range that ends exactly at the top of the address space is not mapped at all. */
  lemma TopRangeNotMapped(v: Space, v': Space, addr: nat, p: nat, length: nat, flags: nat, va: nat)
    requires v.Valid() && v'.Valid() && DirectMapped(v, v', addr, p, length, flags)
    requires addr + length == TWO64
    ensures Walk(v', va) == Walk(v, va)
  {
    hide Tree, Grown, WalkFrom, RangeUnmapped, RangeNodes, Leaf, PageOffset;
    if Canonical(va) {
      WalkIsLeaf(v, va);
      WalkIsLeaf(v', va);
    }
  }

  /** A mapping call returns if and only if its loop ends, its pages were unmapped and its tables had room. */
  lemma MapReturnsIff(v: Space, r: Outcome<Space>, addr: nat, p: nat, length: nat, flags: nat)
    requires v.Valid() && MapOutcome(v, r, addr, p, length, flags)
    ensures var n := PageCount(addr, length);
            r.Done? <==> !NeverEnds(addr, length) && RangeUnmapped(v, addr, n) && !NoRoom(v, RangeNodes(addr, n))
  {
    hide Tree, Leaf, Grown, RangeUnmapped, NoRoom, NeverEnds, Rewritten;
  }

  /**
   A mapping call that nothing stands in the way of, neither a present page nor the allocator's limit, returns with
   every address of its range mapped if and only if the range, rounded up to pages, ends below the top of the
   address space. When it ends exactly there nothing is mapped; when it ends inside the last page the call never
   returns.
  */
  lemma MapTakesEffectIff(v: Space, r: Outcome<Space>, addr: nat, p: nat, length: nat, flags: nat)
    requires v.Valid() && MapOutcome(v, r, addr, p, length, flags)
    requires length > 0 && CanonicalRange(addr, PageUp(length) / 0x1000) && FramesOk(p, PageUp(length) / 0x1000)
    requires flags < 0x100 && flags % 2 == 1
    requires RangeUnmapped(v, addr, PageUp(length) / 0x1000) && !NoRoom(v, RangeNodes(addr, PageUp(length) / 0x1000))
    ensures (r.Done? && forall a: nat :: addr <= a < addr + length ==>
               Walk(r.value, a) == Page(p / 0x1000 + (a - addr) / 0x1000, flags))
       <==> addr + PageUp(length) < TWO64
  {
    hide Tree, Grown, WalkFrom, RangeUnmapped, Rewritten, NoRoom, RangeNodes, Leaf;
    var n := PageUp(length) / 0x1000;
    assert PageUp(length) == n * 0x1000;
    if addr + PageUp(length) < TWO64 {
      WholeRange(addr, length);
      forall a: nat | addr <= a < addr + length
        ensures Walk(r.value, a) == Page(p / PAGE_SIZE + (a - addr) / PAGE_SIZE, flags)
      {
        MapTranslates(v, r.value, addr, p, length, flags, a);
      }
    } else if r.Done? {
      TopEnds(addr, length);
      TopRangeNotMapped(v, r.value, addr, p, length, flags, addr);
      FirstPageFaults(v, addr, n);
    }
  }

  lemma WholeRange(addr: nat, length: nat)
    requires addr + PageUp(length) < TWO64 && addr % 0x1000 == 0
    ensures !NeverEnds(addr, length) && PageCount(addr, length) == PageUp(length) / 0x1000
  {
    PageCountRoundsUp(addr, length);
    AlignedSum(addr, PageUp(length));
  }

  lemma AlignedSum(a: nat, b: nat)
    requires a % 0x1000 == 0 && b % 0x1000 == 0
    ensures (a + b) % 0x1000 == 0
  {
  }

  lemma TopEnds(addr: nat, length: nat)
    requires addr + PageUp(length) == TWO64 && !NeverEnds(addr, length) && length > 0
    ensures addr + length == TWO64
  {
  }

  /** The two ways to miss the top page: half of it is never mapped to the end, all of it is not mapped at all. */
  lemma TopPageInstances()
    ensures NeverEnds(0xFFFF_FFFF_FFFF_F000, 0x800)
    ensures !NeverEnds(0xFFFF_FFFF_FFFF_F000, 0x1000) && PageCount(0xFFFF_FFFF_FFFF_F000, 0x1000) == 0
  {
  }

  lemma FirstPageFaults(v: Space, addr: nat, n: nat)
    requires v.Valid() && n > 0 && CanonicalRange(addr, n) && RangeUnmapped(v, addr, n)
    ensures Canonical(addr) && Walk(v, addr) == Fault
  {
    hide Tree, WalkFrom, Leaf;
    OffsetInRange(addr, n, addr);
    WalkIsLeaf(v, addr);
  }

  // ----- the tables form a tree -----

  /**
   Every non-zero entry above the leaves is present and writable and leads to a page-aligned table of its own: two
   entries never lead to the same table, and none leads back to the root.
  */
  lemma EntriesOwnTheirTables(v: Space, n: Node, i: nat, n': Node, i': nat)
    requires v.Valid() && n in v.tables && n' in v.tables && n.level >= 2 && n'.level >= 2
    requires i < ENTRIES && i' < ENTRIES
    requires v.tables[n] + PAGE_SIZE <= |v.mem| && v.tables[n'] + PAGE_SIZE <= |v.mem|
    requires Entry(v.mem, v.tables[n], i) != 0 && Entry(v.mem, v.tables[n'], i') != 0
    ensures Child(n, i) in v.tables && EntryFrame(Entry(v.mem, v.tables[n], i)) * PAGE_SIZE == v.tables[Child(n, i)]
    ensures v.tables[Child(n, i)] != v.root && Entry(v.mem, v.tables[n], i) % 0x1000 == 3
    ensures (n, i) != (n', i') ==>
      EntryFrame(Entry(v.mem, v.tables[n], i)) != EntryFrame(Entry(v.mem, v.tables[n'], i'))
  {
    assert Entry(v.mem, v.tables[n], i) == LinkWord(v.tables, n, i);
    assert Entry(v.mem, v.tables[n'], i') == LinkWord(v.tables, n', i');
    var t, t' := v.tables[Child(n, i)], v.tables[Child(n', i')];
    assert TableOk(v.mem, Child(n, i), t) && TableOk(v.mem, Child(n', i'), t');
    LinkDecodes(t);
    LinkDecodes(t');
    LinkBits(t / 0x1000);
    assert t == 0x1000 * (t / 0x1000);
    assert TableOk(v.mem, n, v.tables[n]);
    if Child(n, i) == Child(n', i') {
      ChildInjective(n, i, n', i');
    }
  }

  lemma LinkBits(q: nat)
    ensures (0x1000 * q + 3) % 0x1000 == 3
  {
  }

  /** A new table lies beyond everything the allocator handed out before, and overlaps no other table. */
  lemma NewTablesAreFresh(v: Space, v': Space, block: nat, sz: nat, n: Node, n': Node)
    requires v.Valid() && v'.Valid() && Grown(v, v') && n in v'.tables && n !in v.tables
    requires block + sz <= v.base && n' in v'.tables && n' != n
    ensures v'.tables[n] >= block + sz && v'.tables[n] + PAGE_SIZE <= v'.base
    ensures v'.tables[n] + PAGE_SIZE <= v'.tables[n'] || v'.tables[n'] + PAGE_SIZE <= v'.tables[n]
  {
    hide Linked, Connected, Leaf, BaseAfter, OutsideTables;
    assert TableOk(v'.mem, n, v'.tables[n]) && TableOk(v'.mem, n', v'.tables[n']);
    AlignedApart(v'.tables[n], v'.tables[n']);
  }

  lemma AlignedApart(a: nat, b: nat)
    requires a % 0x1000 == 0 && b % 0x1000 == 0 && a != b
    ensures a + 0x1000 <= b || b + 0x1000 <= a
  {
    assert a == 0x1000 * (a / 0x1000) && b == 0x1000 * (b / 0x1000);
  }

  // ----- how many tables -----

  /** Pages served by one table of a level: 2^9, 2^18 or 2^27. */
  function Span(level: nat): nat
    requires 1 <= level <= 3
  {
    if level == 1 then 0x200 else if level == 2 then 0x4_0000 else 0x800_0000
  }

  ghost function NewAtLevel(v: Space, v': Space, level: nat): set<Node> {
    set n | n in v'.tables.Keys && n !in v.tables.Keys && n.level == level
  }

  lemma PrefixSpan(level: nat, vpn: nat)
    requires 1 <= level <= 3
    ensures Prefix(level, vpn) == vpn / Span(level)
  {
    assert Prefix(1, vpn) == vpn / 0x200;
    if level >= 2 { assert Prefix(2, vpn) == Prefix(1, vpn) / 0x200; }
    if level == 3 { assert Prefix(3, vpn) == Prefix(2, vpn) / 0x200; }
  }

  /** The table of window w of a level; windows wrap with the page numbers. */
  function WindowNode(level: nat, w: nat): Node
    requires 1 <= level <= 3
  {
    Node(level, if level == 1 then w % 0x800_0000 else if level == 2 then w % 0x4_0000 else w % 0x200)
  }

  lemma PageWindow(addr: nat, k: nat, level: nat)
    requires 1 <= level <= 3
    ensures NodeOf(level, PageAt(addr, k)) == WindowNode(level, (Vpn(addr) + k) / Span(level))
  {
    PrefixSpan(level, PageAt(addr, k));
    WindowOfWrapped(Vpn(addr) + k);
  }

  lemma WindowOfWrapped(x: nat)
    ensures x % 0x10_0000_0000 / 0x200 == x / 0x200 % 0x800_0000
    ensures x % 0x10_0000_0000 / 0x4_0000 == x / 0x4_0000 % 0x4_0000
    ensures x % 0x10_0000_0000 / 0x800_0000 == x / 0x800_0000 % 0x200
  {
    var q, r := x / 0x10_0000_0000, x % 0x10_0000_0000;
    assert x / 0x200 == q * 0x800_0000 + r / 0x200;
    assert x / 0x4_0000 == q * 0x4_0000 + r / 0x4_0000;
    assert x / 0x800_0000 == q * 0x200 + r / 0x800_0000;
  }

  function Windows(level: nat, first: nat, count: nat): set<Node>
    requires 1 <= level <= 3
  {
    if count == 0 then {} else Windows(level, first, count - 1) + {WindowNode(level, first + count - 1)}
  }

  lemma {:induction false} WindowsSize(level: nat, first: nat, count: nat)
    requires 1 <= level <= 3
    ensures |Windows(level, first, count)| <= count
  {
    if count > 0 {
      WindowsSize(level, first, count - 1);
    }
  }

  lemma {:induction false} WindowIn(level: nat, first: nat, count: nat, w: nat)
    requires 1 <= level <= 3 && first <= w < first + count
    ensures WindowNode(level, w) in Windows(level, first, count)
  {
    if w < first + count - 1 {
      WindowIn(level, first, count - 1, w);
    }
  }

  lemma {:induction false} RangeNodesInWindows(addr: nat, n: nat, level: nat, count: nat, node: Node)
    requires 1 <= level <= 3 && node in RangeNodes(addr, n) && node.level == level
    requires (Vpn(addr) + n - 1) / Span(level) < Vpn(addr) / Span(level) + count
    ensures node in Windows(level, Vpn(addr) / Span(level), count)
  {
    hide Windows, WindowNode, PageAt, Prefix, Vpn;
    WindowOrder(level, Vpn(addr), n);
    if node in Path(PageAt(addr, n - 1)) {
      PageWindow(addr, n - 1, level);
      WindowIn(level, Vpn(addr) / Span(level), count, (Vpn(addr) + n - 1) / Span(level));
    } else {
      RangeNodesInWindows(addr, n - 1, level, count, node);
    }
  }

  lemma WindowOrder(level: nat, s: nat, n: nat)
    requires 1 <= level <= 3 && n > 0
    ensures s / Span(level) <= (s + n - 1) / Span(level)
    ensures n > 1 ==> (s + (n - 1) - 1) / Span(level) <= (s + n - 1) / Span(level)
    ensures (s + n - 1) / Span(level) - s / Span(level) + 1 <= (n + 2 * Span(level) - 2) / Span(level)
  {
  }

  /**
   Mapping or unmapping n >= 1 pages makes at most one table of a level per window of that level the range touches:
   at most (n + 1022) / 512 leaf tables, and the matching bounds above.
  */
  lemma TableBound(v: Space, v': Space, addr: nat, n: nat, level: nat)
    requires v'.tables.Keys == v.tables.Keys + RangeNodes(addr, n) && n >= 1 && 1 <= level <= 3
    ensures |NewAtLevel(v, v', level)| <= (n + 2 * Span(level) - 2) / Span(level)
    ensures level == 1 ==> |NewAtLevel(v, v', level)| <= (n + 1022) / 512
  {
    var first := Vpn(addr) / Span(level);
    var count := (Vpn(addr) + n - 1) / Span(level) - first + 1;
    WindowOrder(level, Vpn(addr), n);
    forall node | node in NewAtLevel(v, v', level)
      ensures node in Windows(level, first, count)
    {
      RangeNodesInWindows(addr, n, level, count, node);
    }
    SubsetSize(NewAtLevel(v, v', level), Windows(level, first, count));
    WindowsSize(level, first, count);
  }
}
