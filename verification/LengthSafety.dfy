/**
 Which lengths may be asked of the allocating map call: those that never leave a kernel-region page without a used
 frame behind it, in any state, and what goes wrong with the others.
*/
module LengthSafety {
  import opened Memory
  import opened PageTables
  import opened PageRanges
  import opened KernelMemory
  import opened AddressSpaces
  import opened KernelRegion

  // ----- a mapping pass that has room can be carried out -----

  /** The space with the table behind a slot, made when missing. */
  lemma AddChild(v: Space, n: Node, i: nat) returns (v': Space)
    requires v.Valid() && n in v.tables && n.level >= 2 && i < ENTRIES
    requires v.base % 0x1000 == 0 && v.base + 0x1000 <= v.limit
    ensures v'.Valid() && Grown(v, v') && SameLeaves(v, v') && v'.used == v.used
    ensures v'.tables.Keys == v.tables.Keys + {Child(n, i)}
    ensures v'.base % 0x1000 == 0 && v'.base <= v.base + 0x1000
  {
    hide Tree, InMemory, Grown, SameLeaves, Leaf;
    if Child(n, i) in v.tables {
      v' := v;
      GrownReflexive(v);
      SameLeavesReflexive(v);
    } else {
      NodeOk(v, n);
      var t := PageUp(v.base);
      AlignedPageUp(v.base);
      GrowByOne(v, n, i, t, v.used);
      v' := WithTable(v, n, i, t, v.used);
    }
  }

  lemma AlignedPageUp(x: nat)
    requires x % 0x1000 == 0
    ensures PageUp(x) == x
  {
    assert x == 0x1000 * (x / 0x1000);
    MultipleUp(x / 0x1000);
  }

  lemma MultipleUp(q: nat)
    ensures (0x1000 * q + 0xFFF) / 0x1000 == q
  {
  }

  lemma NodeOk(v: Space, n: Node)
    requires v.Valid() && n in v.tables
    ensures TableOk(v.mem, n, v.tables[n])
  {
  }

  /** The space with all tables on the way to a page. */
  lemma AddPath(v: Space, vpn: nat) returns (v': Space)
    requires v.Valid() && vpn < VPN_COUNT && v.base % 0x1000 == 0 && v.base + 0x3000 <= v.limit
    ensures v'.Valid() && Grown(v, v') && SameLeaves(v, v') && v'.used == v.used
    ensures v'.tables.Keys == v.tables.Keys + Path(vpn)
    ensures v'.base % 0x1000 == 0 && v'.base <= v.base + 0x3000
  {
    hide Tree, InMemory, Grown, SameLeaves, Leaf, Prefix, Index, Child, NodeOf;
    PathSteps(vpn);
    RootKnown(v);
    var a := AddChild(v, Node(4, 0), Index(4, vpn));
    SameLimit(v, a);
    var b := AddChild(a, NodeOf(3, vpn), Index(3, vpn));
    SameLimit(a, b);
    v' := AddChild(b, NodeOf(2, vpn), Index(2, vpn));
    GrownTransitive(v, a, b);
    GrownTransitive(v, b, v');
    SameLeavesTransitive(v, a, b);
    SameLeavesTransitive(v, b, v');
  }

  lemma SameLimit(v: Space, v': Space)
    requires Grown(v, v')
    ensures v'.limit == v.limit
  {
  }

  /** With three pages of heap for each page to map, any pass over a range has an outcome. */
  lemma {:induction false} PassExists(v: Space, addr: nat, n: nat, w: Rewrite) returns (v': Space)
    requires v.Valid() && n <= VPN_COUNT && RewriteOk(w)
    requires v.base % 0x1000 == 0 && v.base + 0x3000 * n <= v.limit
    ensures v'.Valid() && Grown(v, v') && Rewritten(v, v', addr, n, w) && v'.used == v.used
    ensures v'.tables.Keys == v.tables.Keys + RangeNodes(addr, n)
    ensures v'.base % 0x1000 == 0 && v'.base <= v.base + 0x3000 * n
  {
    hide Tree, Grown, Leaf, Rewritten, PageAt;
    if n == 0 {
      v' := v;
      RewriteStart(v, addr, w);
    } else {
      var s := PassExists(v, addr, n - 1, w);
      SameLimit(v, s);
      v' := OneMorePage(v, s, addr, n - 1, w);
    }
  }

  lemma OneMorePage(v: Space, s: Space, addr: nat, k: nat, w: Rewrite) returns (u: Space)
    requires v.Valid() && s.Valid() && k < VPN_COUNT && RewriteOk(w) && Grown(v, s) && Rewritten(v, s, addr, k, w)
    requires s.base % 0x1000 == 0 && s.base + 0x3000 <= s.limit
    ensures u.Valid() && Grown(v, u) && Rewritten(v, u, addr, k + 1, w) && u.used == s.used
    ensures u.tables.Keys == s.tables.Keys + Path(PageAt(addr, k))
    ensures u.base % 0x1000 == 0 && u.base <= s.base + 0x3000
  {
    hide Tree, InMemory, Grown, SameLeaves, Leaf, Rewritten, TableOk, SetEntry, Path, PageAt, LeafWord, NodeOf, RewriteOk;
    var t := AddPath(s, PageAt(addr, k));
    GrownTransitive(v, s, t);
    RewrittenGrows(v, s, t, addr, k, w);
    OnPath(PageAt(addr, k));
    RewriteStep(v, t, addr, k, w);
    u := WithLeaf(t, PageAt(addr, k), LeafWord(w, k));
  }

  lemma OnPath(vpn: nat)
    ensures NodeOf(1, vpn) in Path(vpn)
  {
  }

  // ----- lengths -----

  /** No call with this length, in any state that is backed, leaves a state that is not. */
  ghost predicate LengthSafe(length: nat, flags: nat) {
    forall v: Space, v': Space, addr: nat |
      && v.Valid() && v'.Valid() && |v.used| <= 0x8_0000 && KernelBacked(v)
      && AllocMapped(v, v', length, flags, addr) :: KernelBacked(v')
  }

  /** A directory that maps nothing, on a heap with room for n pages to be mapped. */
  function EmptySpace(n: nat, used: seq<bool>): Space {
    Space(seq(0x1000 + 0x3000 * n, _ => 0), map[Node(4, 0) := 0], 0, 0x1000, 0x1000 + 0x3000 * n, used)
  }

  lemma EmptySpaceOk(n: nat, used: seq<bool>)
    requires n <= 0x8_0000
    ensures EmptySpace(n, used).Valid()
    ensures forall vpn: nat :: EmptySpace(n, used).LeafAt(vpn) == 0
  {
    hide Tree, Leaf;
    EmptyTree(EmptySpace(n, used).mem, 0);
  }

  /**
   With any other length and PRESENT, from an empty directory: the call maps one page more than it allocates, and
   the next one-page allocation gets the frame of that page, where the remap panic waits.
  */
  lemma BadLengthMeetsRemap(length: nat, flags: nat) returns (v: Space, v': Space, i: nat)
    requires !LengthOk(length) && length / 0x1000 < 0x7_FFFF && flags < 0x100 && flags % 2 == 1
    ensures v.Valid() && v'.Valid() && |v.used| <= 0x8_0000 && forall vpn: nat :: !Present(v.LeafAt(vpn))
    ensures AllocMapped(v, v', length, flags, KERNEL_VMB)
    ensures IsFirstRun(v'.used, i, 1) && i < 0x8_0000 && Present(v'.LeafAt(KernelPage(i)))
    ensures !RangeUnmapped(v', KERNEL_VMB + i * PAGE_SIZE, 1)
  {
    hide Tree, Leaf, Grown, RangeUnmapped, RangeNodes, PageCount, NeverEnds, IsFirstRun, KernelPage, Rewritten;
    i := length / 0x1000;
    var n := i + 1;
    FromBottom(length);
    var used := seq(n, _ => false);
    v := EmptySpace(n, used);
    EmptySpaceOk(n, used);
    var vm := EmptySpace(n, Filled(used, 0, i));
    EmptySpaceOk(n, Filled(used, 0, i));
    v' := PassExists(vm, KERNEL_VMB, n, ToFrames(0, flags));
    FirstRuns(n, used);
    AllNotPresent(v, KERNEL_VMB, n);
    LastPagePresent(vm, v', i, flags);
  }

  lemma FromBottom(length: nat)
    requires !LengthOk(length) && length / 0x1000 < 0x7_FFFF
    ensures PageCount(KERNEL_VMB, length) == length / 0x1000 + 1 && !NeverEnds(KERNEL_VMB, length)
    ensures PagesWanted(length / 0x1000) == length / 0x1000 >= 1
  {
    PagesMappedAndAllocated(KERNEL_VMB, length);
  }

  /** Of n free pages the first run is at 0; with all but the last taken, the first run of one page is the last. */
  lemma FirstRuns(n: nat, used: seq<bool>)
    requires n >= 2 && used == seq(n, _ => false)
    ensures IsFirstRun(used, 0, n - 1) && IsFirstRun(Filled(used, 0, n - 1), n - 1, 1)
  {
    var filled := Filled(used, 0, n - 1);
    forall j: nat | j < n - 1 ensures !FreeRun(filled, j, 1) {
      assert filled[j];
    }
  }

  lemma AllNotPresent(v: Space, addr: nat, n: nat)
    requires v.Valid() && forall vpn: nat :: v.LeafAt(vpn) == 0
    ensures RangeUnmapped(v, addr, n)
  {
  }

  lemma LastPagePresent(v: Space, v': Space, i: nat, flags: nat)
    requires v.Valid() && v'.Valid() && i < 0x7_FFFF && flags % 2 == 1
    requires Rewritten(v, v', KERNEL_VMB, i + 1, ToFrames(0, flags))
    ensures Present(v'.LeafAt(KernelPage(i))) && !RangeUnmapped(v', KERNEL_VMB + i * PAGE_SIZE, 1)
  {
    hide Tree, Leaf;
    KernelPageOffset(0, i);
    KernelPageOffset(i, i);
    LeafWordPresent(0, i, flags);
  }

  /** From 0x7FFFF pages on, a length that is not whole pages wraps to nothing or never returns. */
  lemma LongLengths(v: Space, v': Space, length: nat, flags: nat, addr: nat)
    requires v.Valid() && v'.Valid() && |v.used| <= 0x8_0000 && AllocMapped(v, v', length, flags, addr)
    requires !LengthOk(length) && length / 0x1000 >= 0x7_FFFF
    ensures PageCount(addr, length) == 0
  {
    hide Tree, Leaf, Grown, RangeUnmapped, Rewritten, RangeNodes;
    var i := (addr - KERNEL_VMB) / PAGE_SIZE;
    AllocMappedFacts(v, v', length, flags, addr);
    RunFits(i, length, |v.used|);
    AtTop(i, length);
  }

  lemma AtTop(i: nat, length: nat)
    requires length / 0x1000 >= 0x7_FFFF && length % 0x1000 != 0 && i + length / 0x1000 <= 0x8_0000
    requires !NeverEnds(KERNEL_VMB + i * 0x1000, length)
    ensures PageCount(KERNEL_VMB + i * 0x1000, length) == 0
  {
  }

  /**
   The lengths that are safe in every state: whole pages, or less than one page, or a mapping without PRESENT, or a
   length so long that it wraps.
  */
  lemma LengthSafeIff(length: nat, flags: nat)
    requires flags < 0x100
    ensures LengthSafe(length, flags) <==>
              LengthOk(length) || flags % 2 == 0 || length / 0x1000 >= 0x7_FFFF
  {
    hide Tree, Leaf, AllocMapped, KernelBacked, RangeUnmapped, PageCount, IsFirstRun;
    if LengthOk(length) || flags % 2 == 0 || length / 0x1000 >= 0x7_FFFF {
      forall v: Space, v': Space, addr: nat |
        && v.Valid() && v'.Valid() && |v.used| <= 0x8_0000 && KernelBacked(v)
        && AllocMapped(v, v', length, flags, addr)
        ensures KernelBacked(v')
      {
        BackedAfterAllocIff(v, v', length, flags, addr);
        if !LengthOk(length) && flags % 2 == 1 { LongLengths(v, v', length, flags, addr); }
      }
    } else {
      var v, v', i := BadLengthMeetsRemap(length, flags);
      NothingMappedIsBacked(v);
      FreeAndMapped(v', i);
    }
  }

  lemma NothingMappedIsBacked(v: Space)
    requires v.Valid() && forall vpn: nat :: !Present(v.LeafAt(vpn))
    ensures KernelBacked(v)
  {
  }

  lemma FreeAndMapped(v: Space, i: nat)
    requires v.Valid() && i < 0x8_0000 && Present(v.LeafAt(KernelPage(i))) && IsFirstRun(v.used, i, 1)
    ensures !KernelBacked(v)
  {
  }

  /** Six kilobytes, then one page: the second call stops on a page that is already present. */
  lemma SixKilobytes() returns (trace: seq<Space>, ops: seq<Op>, i: nat)
    ensures Run(trace, ops) && ops == [MapAnywhere(0x1800, 3, KERNEL_VMB)] && |trace[0].used| <= 0x8_0000
    ensures forall vpn: nat :: !Present(trace[0].LeafAt(vpn))
    ensures IsFirstRun(trace[1].used, i, PagesWanted(0x1000 / 0x1000))
    ensures !RangeUnmapped(trace[1], KERNEL_VMB + i * PAGE_SIZE, 1)
  {
    hide Tree, Leaf, AllocMapped, RangeUnmapped, IsFirstRun;
    var v, v';
    v, v', i := BadLengthMeetsRemap(0x1800, 3);
    trace, ops := [v, v'], [MapAnywhere(0x1800, 3, KERNEL_VMB)];
  }
}
