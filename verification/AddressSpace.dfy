/**
 An address space under construction, as a value: memory, the tree of tables, the cursor and limit of the
 allocator the tables come from, and the frame bitmap the allocator marks. Relations between two such values
 describe what the paging code of Lobo and of the boot loader does.
*/
module AddressSpaces {
  import opened Outcomes
  import opened Memory
  import opened PageTables
  import opened PageRanges

  /** Addresses are physical. The boot loader has no frame bitmap; its used is empty. */
  datatype Space = Space(mem: Mem, tables: Tables, root: nat, base: nat, limit: nat, used: seq<bool>) {

    /** The tables form a tree, all of it in allocated memory, and the allocator's region is in memory. */
    ghost predicate Valid()
      ensures Valid() ==> |mem| <= PHYS_LIMIT
    {
      && base <= limit <= |mem|
      && Tree(mem, tables, root)
      && forall n :: n in tables ==> tables[n] + PAGE_SIZE <= base
    }

    ghost function LeafAt(vpn: nat): nat
      requires Valid()
    {
      Leaf(mem, tables, vpn)
    }
  }

  // ----- ranges of pages -----

  /** The end the loops over [addr, addr + size) compare with, computed in 64 bits. */
  function RangeLimit(addr: nat, size: nat): nat {
    (addr + size) % TWO64
  }

  /**
   The end lies inside the last page of all: the cursor of a loop over the range goes from that page to page 0,
   which is still below the end.
  */
  predicate NeverEnds(addr: nat, size: nat) {
    RangeLimit(addr, size) > 0xFFFF_FFFF_FFFF_F000
  }

  /** How many pages the loops visit when they end. */
  function PageCount(addr: nat, size: nat): nat {
    if RangeLimit(addr, size) <= addr then 0 else (RangeLimit(addr, size) - addr + 0xFFF) / 0x1000
  }

  /** A range of bytes from a page boundary; a loop over it that ends visits no page twice. */
  predicate RangeOk(addr: nat, size: nat) {
    && addr % PAGE_SIZE == 0 && addr < TWO64 && size < TWO64
    && (NeverEnds(addr, size) || PageCount(addr, size) <= VPN_COUNT)
  }

  /** The k-th address of a loop that advances page by page in 64 bits. */
  function Cursor(start: nat, k: nat): nat {
    (start + k * PAGE_SIZE) % TWO64
  }

  lemma CursorStep(start: nat, k: nat)
    ensures (Cursor(start, k) + PAGE_SIZE) % TWO64 == Cursor(start, k + 1)
  {
    var x := start + k * 0x1000;
    assert x == 0x1_0000_0000_0000_0000 * (x / 0x1_0000_0000_0000_0000) + x % 0x1_0000_0000_0000_0000;
    WrapSum(x / 0x1_0000_0000_0000_0000, x % 0x1_0000_0000_0000_0000 + 0x1000);
  }

  lemma WrapSum(c: nat, x: nat)
    ensures (0x1_0000_0000_0000_0000 * c + x) % 0x1_0000_0000_0000_0000 == x % 0x1_0000_0000_0000_0000
  {
    var d, y := x / 0x1_0000_0000_0000_0000, x % 0x1_0000_0000_0000_0000;
    assert 0x1_0000_0000_0000_0000 * c + x == 0x1_0000_0000_0000_0000 * (c + d) + y;
  }

  lemma CursorPage(start: nat, k: nat)
    requires start % PAGE_SIZE == 0
    ensures Vpn(Cursor(start, k)) == PageAt(start, k)
    ensures Cursor(start, k) % 0x1000 == 0 && Cursor(start, k) <= 0xFFFF_FFFF_FFFF_F000
  {
    VpnWraps(start + k * PAGE_SIZE);
    PageAtAddress(start, k);
    var q := start / 0x1000 + k;
    assert start == 0x1000 * (start / 0x1000);
    assert q == 0x10_0000_0000_0000 * (q / 0x10_0000_0000_0000) + q % 0x10_0000_0000_0000;
    WrapSum(q / 0x10_0000_0000_0000, 0x1000 * (q % 0x10_0000_0000_0000));
    AlignedMultiple(q % 0x10_0000_0000_0000);
  }

  lemma AlignedMultiple(r: nat)
    ensures 0x1000 * r % 0x1000 == 0
  {
  }

  /** The guard of a loop over a range, at its k-th round. */
  lemma PassCursor(addr: nat, size: nat, k: nat)
    requires RangeOk(addr, size) && (NeverEnds(addr, size) || k <= PageCount(addr, size))
    ensures NeverEnds(addr, size) ==> Cursor(addr, k) < RangeLimit(addr, size)
    ensures !NeverEnds(addr, size) ==>
              (Cursor(addr, k) < RangeLimit(addr, size) <==> k < PageCount(addr, size))
  {
    CursorPage(addr, k);
    if !NeverEnds(addr, size) {
      var n, limit := PageCount(addr, size), RangeLimit(addr, size);
      if n > 0 {
        PagesUpTo(addr, limit, n);
        assert Cursor(addr, k) == addr + k * 0x1000;
      } else {
        assert Cursor(addr, 0) == addr;
      }
    }
  }

  lemma PagesUpTo(addr: nat, limit: nat, n: nat)
    requires addr % 0x1000 == 0 && addr < limit <= 0xFFFF_FFFF_FFFF_F000 && n == (limit - addr + 0xFFF) / 0x1000
    ensures addr + (n - 1) * 0x1000 < limit <= addr + n * 0x1000 <= 0xFFFF_FFFF_FFFF_F000
  {
    assert limit - addr + 0xFFF == 0x1000 * n + (limit - addr + 0xFFF) % 0x1000;
    assert addr == 0x1000 * (addr / 0x1000);
  }

  /** The loops end if and only if the end of the range is not inside the last page of all. */
  lemma LoopEndsIff(addr: nat, size: nat)
    requires RangeOk(addr, size)
    ensures (exists k: nat :: Cursor(addr, k) >= RangeLimit(addr, size)) <==> !NeverEnds(addr, size)
  {
    if NeverEnds(addr, size) {
      forall k: nat ensures Cursor(addr, k) < RangeLimit(addr, size) {
        PassCursor(addr, size, k);
      }
    } else {
      PassCursor(addr, size, PageCount(addr, size));
    }
  }

  /** A range that does not wrap has as many pages as its size rounded up. */
  lemma PageCountRoundsUp(addr: nat, size: nat)
    requires addr + size < TWO64
    ensures PageCount(addr, size) == (size + 0xFFF) / 0x1000
  {
  }

  // ----- growth -----

  /** Used pages stay used, and new ones are pages the allocator's cursor has moved into. */
  ghost predicate HeapMarks(used: seq<bool>, used': seq<bool>, base: nat, base': nat) {
    && |used'| == |used|
    && (forall k :: 0 <= k < |used| && used[k] ==> used'[k])
    && (forall k :: 0 <= k < |used| && used'[k] ==> used[k] || base / 0x1000 < k <= base' / 0x1000)
  }

  function NewCount(v: Space, v': Space): int {
    |v'.tables| - |v.tables|
  }

  /**
   Tables were added and nothing else happened to allocated memory: old tables stay where they are, each new
   one takes one fresh page beyond everything allocated before, used pages stay used and only pages the
   allocator grew into became so, and bytes outside the tables keep their values.
  */
  ghost predicate Grown(v: Space, v': Space) {
    && v'.root == v.root && v'.limit == v.limit
    && |v'.mem| == |v.mem| && |v'.used| == |v.used|
    && (forall n :: n in v.tables ==> n in v'.tables && v'.tables[n] == v.tables[n])
    && NewCount(v, v') >= 0 && v'.base == BaseAfter(v.base, NewCount(v, v'))
    && (forall n :: n in v'.tables && n !in v.tables ==> v'.tables[n] >= v.base)
    && HeapMarks(v.used, v'.used, v.base, v'.base)
    && (NewCount(v, v') == 0 ==> v'.used == v.used)
    && (forall k :: 0 <= k < |v.mem| && OutsideTables(v'.tables, k) ==> v'.mem[k] == v.mem[k])
  }

  lemma BaseAfterGrows(base: nat, c: nat)
    ensures BaseAfter(base, c) >= base
  {
  }

  lemma GrownTransitive(a: Space, b: Space, c: Space)
    requires Grown(a, b) && Grown(b, c)
    ensures Grown(a, c)
  {
    BaseAfterAdds(a.base, NewCount(a, b), NewCount(b, c));
    BaseAfterGrows(a.base, NewCount(a, b));
    BaseAfterGrows(b.base, NewCount(b, c));
    OutsideFewer(b.tables, c.tables);
  }

  lemma GrownReflexive(v: Space)
    ensures Grown(v, v)
  {
  }

  /** The allocator cannot supply a page for every missing table of a set. */
  ghost predicate NoRoom(v: Space, target: set<Node>) {
    BaseAfter(v.base, |target - v.tables.Keys|) > v.limit
  }

  /** Running out of room after some tables of a set were made means there was no room for the set. */
  lemma NoRoomBefore(v: Space, v': Space, done: set<Node>, missing: set<Node>, target: set<Node>)
    requires Grown(v, v') && v'.tables.Keys <= v.tables.Keys + done
    requires done <= target && missing <= target
    requires NoRoom(v', missing)
    ensures NoRoom(v, target)
  {
    var c := NewCount(v, v');
    MadeAndMissing(v.tables.Keys, v'.tables.Keys, missing, target);
    assert |v.tables.Keys| == |v.tables| && |v'.tables.Keys| == |v'.tables|;
    BaseAfterAdds(v.base, c, |missing - v'.tables.Keys|);
    BaseAfterMonotone(v.base, c + |missing - v'.tables.Keys|, |target - v.tables.Keys|);
  }

  /** Every page has the same leaf entry in both. */
  ghost predicate SameLeaves(v: Space, v': Space)
    requires v.Valid() && v'.Valid()
  {
    forall vpn: nat :: Leaf(v'.mem, v'.tables, vpn) == Leaf(v.mem, v.tables, vpn)
  }

  /** No page has a leaf entry. */
  ghost predicate MapsNothing(v: Space)
    requires v.Valid()
  {
    forall vpn: nat :: v.LeafAt(vpn) == 0
  }

  lemma SameLeavesReflexive(v: Space)
    requires v.Valid()
    ensures SameLeaves(v, v)
  {
  }

  lemma SameLeavesTransitive(a: Space, b: Space, c: Space)
    requires a.Valid() && b.Valid() && c.Valid()
    requires SameLeaves(a, b) && SameLeaves(b, c)
    ensures SameLeaves(a, c)
  {
  }

  // ----- one new table -----

  function ZeroFill(m: Mem, a: nat, n: nat): (r: Mem)
    requires a + n <= |m|
    ensures |r| == |m|
    ensures forall k :: 0 <= k < |m| ==> r[k] == if a <= k < a + n then 0 else m[k]
  {
    m[..a] + seq(n, _ => 0) + m[a + n..]
  }

  /** The state after a fresh page was zeroed and linked into slot i of table n. */
  function WithTable(v: Space, n: Node, i: nat, t: nat, used: seq<bool>): Space
    requires n in v.tables && n.level >= 1 && i < ENTRIES
    requires v.tables[n] + PAGE_SIZE <= |v.mem| && t + PAGE_SIZE <= |v.mem|
  {
    Space(SetEntry(ZeroFill(v.mem, t, PAGE_SIZE), v.tables[n], i, t + LINK_FLAGS), v.tables[Child(n, i) := t],
          v.root, t + PAGE_SIZE, v.limit, used)
  }

  lemma WithTableParts(v: Space, n: Node, i: nat, t: nat, used: seq<bool>)
    requires n in v.tables && n.level >= 1 && i < ENTRIES
    requires v.tables[n] + PAGE_SIZE <= |v.mem| && t + PAGE_SIZE <= |v.mem|
    ensures WithTable(v, n, i, t, used).tables == v.tables[Child(n, i) := t]
  {
  }

  /** What FindPageTable may do to a slot: the child is missing and the allocator has a page for it. */
  ghost predicate CanAdd(v: Space, n: Node, i: nat, t: nat) {
    && v.Valid() && n in v.tables && TableOk(v.mem, n, v.tables[n])
    && n.level >= 2 && i < ENTRIES && Child(n, i) !in v.tables
    && t == PageUp(v.base) && t + PAGE_SIZE <= v.limit
  }

  /** The page taken lies beyond every table; zeroing it changes no table. */
  lemma FreshPage(v: Space, n: Node, i: nat, t: nat)
    requires CanAdd(v, n, i, t)
    ensures t % PAGE_SIZE == 0 && t + PAGE_SIZE <= |v.mem| && t >= v.base
    ensures forall n' :: n' in v.tables ==> v.tables[n'] + PAGE_SIZE <= t
    ensures SameTables(v.mem, ZeroFill(v.mem, t, PAGE_SIZE), v.tables)
    ensures BlankPage(ZeroFill(v.mem, t, PAGE_SIZE), v.tables, t)
  {
    hide Tree, PageUp, TableOk;
    var m := ZeroFill(v.mem, t, PAGE_SIZE);
    forall j: nat | j < ENTRIES ensures Entry(m, t, j) == 0 {
      LoadWordZero(m, t + 8 * j);
    }
  }

  lemma GrowByOneFrame(v: Space, n: Node, i: nat, t: nat, used: seq<bool>)
    requires CanAdd(v, n, i, t) && t + PAGE_SIZE <= |v.mem|
    ensures var v' := WithTable(v, n, i, t, used);
            forall k :: 0 <= k < |v.mem| && OutsideTables(v'.tables, k) ==> v'.mem[k] == v.mem[k]
  {
    var v' := WithTable(v, n, i, t, used);
    var m := ZeroFill(v.mem, t, PAGE_SIZE);
    StoreWordEffect(m, v.tables[n] + 8 * i, t + LINK_FLAGS);
    forall k | 0 <= k < |v.mem| && OutsideTables(v'.tables, k) ensures v'.mem[k] == v.mem[k] {
      assert v'.tables[Child(n, i)] == t;
      assert v'.tables[n] == v.tables[n];
    }
  }

  lemma GrowByOne(v: Space, n: Node, i: nat, t: nat, used: seq<bool>)
    requires CanAdd(v, n, i, t)
    requires HeapMarks(v.used, used, v.base, t + PAGE_SIZE)
    ensures t + PAGE_SIZE <= |v.mem|
    ensures WithTable(v, n, i, t, used).Valid()
    ensures Grown(v, WithTable(v, n, i, t, used))
    ensures SameLeaves(v, WithTable(v, n, i, t, used))
  {
    hide Tree, Linked, Injective, Connected, InMemory, SetEntry, ZeroFill, Leaf, BlankPage, SameTables;
    var m := ZeroFill(v.mem, t, PAGE_SIZE);
    FreshPage(v, n, i, t);
    TreeFrame(v.mem, m, v.tables, v.root);
    LinkTable(m, v.tables, v.root, n, i, t);
    GrowByOneFrame(v, n, i, t, used);
    var v' := WithTable(v, n, i, t, used);
    assert |v'.tables| == |v.tables| + 1;
  }

  lemma NoRoomForOne(v: Space, c: Node)
    requires c !in v.tables
    ensures PageUp(v.base) + PAGE_SIZE > v.limit ==> NoRoom(v, {c})
  {
    assert {c} - v.tables.Keys == {c};
  }

  lemma NoRoomWider(v: Space, target: set<Node>, wider: set<Node>)
    requires NoRoom(v, target) && target <= wider
    ensures NoRoom(v, wider)
  {
    SubsetSize(target - v.tables.Keys, wider - v.tables.Keys);
    BaseAfterMonotone(v.base, |target - v.tables.Keys|, |wider - v.tables.Keys|);
  }

  lemma RootKnown(v: Space)
    requires v.Valid()
    ensures Node(4, 0) in v.tables && v.tables[Node(4, 0)] == v.root
  {
  }

  // ----- rewriting the leaves of a range -----

  /** What a pass over a range writes: consecutive frames with flags, or the unmapped word. */
  datatype Rewrite = ToFrames(frames: nat, flags: nat) | ToNothing

  const UNMAPPED_WORD: nat := 2

  /** The leaf written for the page d pages into the range. */
  function LeafWord(w: Rewrite, d: nat): nat {
    match w
    case ToFrames(frames, flags) => Cursor(frames, d) + flags
    case ToNothing => UNMAPPED_WORD
  }

  predicate RewriteOk(w: Rewrite) {
    w.ToFrames? ==> w.frames % PAGE_SIZE == 0 && w.frames < TWO64 && w.flags < 0x100
  }

  /** The first n pages from addr on hold the new words; every other page keeps its leaf. */
  ghost predicate Rewritten(v: Space, v': Space, addr: nat, n: nat, w: Rewrite)
    requires v.Valid() && v'.Valid()
  {
    forall vpn: nat | vpn < VPN_COUNT ::
      v'.LeafAt(vpn) == if PageOffset(addr, vpn) < n then LeafWord(w, PageOffset(addr, vpn)) else v.LeafAt(vpn)
  }

  ghost predicate RangeUnmapped(v: Space, addr: nat, n: nat)
    requires v.Valid()
  {
    forall vpn: nat | vpn < VPN_COUNT :: PageOffset(addr, vpn) < n ==> !Present(v.LeafAt(vpn))
  }

  function WithLeaf(v: Space, vpn: nat, word: nat): Space
    requires NodeOf(1, vpn) in v.tables && v.tables[NodeOf(1, vpn)] + PAGE_SIZE <= |v.mem|
  {
    v.(mem := SetEntry(v.mem, v.tables[NodeOf(1, vpn)], Index(1, vpn), word))
  }

  lemma WriteLeafKeeps(v: Space, vpn: nat, word: nat)
    requires v.Valid() && NodeOf(1, vpn) in v.tables && word < TWO64
    ensures TableOk(v.mem, NodeOf(1, vpn), v.tables[NodeOf(1, vpn)])
    ensures WithLeaf(v, vpn, word).Valid() && Grown(v, WithLeaf(v, vpn, word))
    ensures forall p: nat :: WithLeaf(v, vpn, word).LeafAt(p) == if p == vpn then word else v.LeafAt(p)
  {
    var n := NodeOf(1, vpn);
    assert TableOk(v.mem, n, v.tables[n]);
    WriteLeaf(v.mem, v.tables, v.root, vpn, word);
    StoreWordEffect(v.mem, v.tables[n] + 8 * Index(1, vpn), word);
  }

  /** One round of a pass: the leaf of the next page is written. */
  lemma RewriteStep(v: Space, t: Space, addr: nat, k: nat, w: Rewrite)
    requires v.Valid() && t.Valid() && k < VPN_COUNT && RewriteOk(w)
    requires Grown(v, t) && Rewritten(v, t, addr, k, w) && NodeOf(1, PageAt(addr, k)) in t.tables
    ensures LeafWord(w, k) < TWO64
    ensures TableOk(t.mem, NodeOf(1, PageAt(addr, k)), t.tables[NodeOf(1, PageAt(addr, k))])
    ensures var u := WithLeaf(t, PageAt(addr, k), LeafWord(w, k));
            u.Valid() && Grown(v, u) && Rewritten(v, u, addr, k + 1, w)
  {
    hide Tree, InMemory, Grown, SetEntry, Cursor;
    if w.ToFrames? { CursorPage(w.frames, k); }
    var u := WithLeaf(t, PageAt(addr, k), LeafWord(w, k));
    WriteLeafKeeps(t, PageAt(addr, k), LeafWord(w, k));
    GrownTransitive(v, t, u);
    forall vpn: nat | vpn < VPN_COUNT
      ensures u.LeafAt(vpn)
           == if PageOffset(addr, vpn) < k + 1 then LeafWord(w, PageOffset(addr, vpn)) else v.LeafAt(vpn)
    {
      PageAtOffset(addr, k, vpn);
    }
  }

  lemma RewrittenGrows(v: Space, s: Space, t: Space, addr: nat, k: nat, w: Rewrite)
    requires v.Valid() && s.Valid() && t.Valid()
    requires Rewritten(v, s, addr, k, w) && SameLeaves(s, t)
    ensures Rewritten(v, t, addr, k, w)
  {
    forall vpn: nat | vpn < VPN_COUNT ensures t.LeafAt(vpn) == s.LeafAt(vpn) {
    }
  }

  lemma RewriteStart(v: Space, addr: nat, w: Rewrite)
    requires v.Valid()
    ensures Grown(v, v) && Rewritten(v, v, addr, 0, w) && RangeUnmapped(v, addr, 0)
  {
  }

  /** Running out of room at page k of a pass means there was no room for the whole pass. */
  lemma NoRoomInPass(v: Space, s: Space, addr: nat, k: nat, n: nat)
    requires Grown(v, s) && k < n && s.tables.Keys == v.tables.Keys + RangeNodes(addr, k)
    requires NoRoom(s, Path(PageAt(addr, k)))
    ensures NoRoom(v, RangeNodes(addr, n))
  {
    hide Grown, NoRoom;
    RangeSteps(addr, k, n);
    assert s.tables.Keys <= v.tables.Keys + RangeNodes(addr, k);
    NoRoomBefore(v, s, RangeNodes(addr, k), Path(PageAt(addr, k)), RangeNodes(addr, n));
  }

  /** The leaf found by a mapping pass for its next page is the one the page had before the pass. */
  lemma StillUnmapped(v: Space, t: Space, addr: nat, k: nat, n: nat, w: Rewrite)
    requires v.Valid() && t.Valid() && k < n <= VPN_COUNT
    requires Rewritten(v, t, addr, k, w) && RangeUnmapped(v, addr, k)
    ensures t.LeafAt(PageAt(addr, k)) == v.LeafAt(PageAt(addr, k))
    ensures Present(t.LeafAt(PageAt(addr, k))) ==> !RangeUnmapped(v, addr, n)
    ensures !Present(t.LeafAt(PageAt(addr, k))) ==> RangeUnmapped(v, addr, k + 1)
  {
    PageAtOffset(addr, k, PageAt(addr, k));
    forall vpn: nat | vpn < VPN_COUNT && PageOffset(addr, vpn) == k ensures vpn == PageAt(addr, k) {
      PageAtOffset(addr, k, vpn);
    }
  }

  // ----- what the mapping calls do -----

  /** The pages of [addr, addr + length) were unmapped and now map to the frames from p on; no other page changed. */
  ghost predicate DirectMapped(v: Space, v': Space, addr: nat, p: nat, length: nat, flags: nat)
    requires v.Valid() && v'.Valid()
  {
    && !NeverEnds(addr, length) && Grown(v, v')
    && v'.tables.Keys == v.tables.Keys + RangeNodes(addr, PageCount(addr, length))
    && RangeUnmapped(v, addr, PageCount(addr, length))
    && Rewritten(v, v', addr, PageCount(addr, length), ToFrames(p, flags))
  }

  /** No page of [addr, addr + length) is present any more; no other page changed. */
  ghost predicate Unmapped(v: Space, v': Space, addr: nat, length: nat)
    requires v.Valid() && v'.Valid()
  {
    && !NeverEnds(addr, length) && Grown(v, v')
    && v'.tables.Keys == v.tables.Keys + RangeNodes(addr, PageCount(addr, length))
    && Rewritten(v, v', addr, PageCount(addr, length), ToNothing)
  }

  /** Tables that were made had room. */
  lemma HadRoom(v: Space, v': Space, nodes: set<Node>)
    requires v'.Valid() && Grown(v, v') && v'.tables.Keys == v.tables.Keys + nodes
    ensures !NoRoom(v, nodes)
  {
    hide Tree, BaseAfter, OutsideTables;
    UnionSize(v.tables.Keys, nodes);
    assert |v.tables.Keys| == |v.tables| && |v'.tables.Keys| == |v'.tables|;
  }

  lemma UnionSize<T>(a: set<T>, b: set<T>)
    ensures |a + b| == |a| + |b - a|
  {
    assert a + b == a + (b - a);
    DisjointSize(a, b - a);
  }

  /**
   What a mapping call comes to when the allocator's only reason to stop is its limit: it returns with the range
   mapped, or stops because the loop does not end, a page was present, or there was no room for the tables.
  */
  ghost predicate MapOutcome(v: Space, r: Outcome<Space>, addr: nat, p: nat, length: nat, flags: nat)
    requires v.Valid()
  {
    match r
    case Done(v') =>
      && v'.Valid() && DirectMapped(v, v', addr, p, length, flags)
      && !NoRoom(v, RangeNodes(addr, PageCount(addr, length)))
    case Halted(why) =>
      || NeverEnds(addr, length)
      || (why == Remapped && !RangeUnmapped(v, addr, PageCount(addr, length)))
      || (why == HeapExhausted && NoRoom(v, RangeNodes(addr, PageCount(addr, length))))
  }

  lemma OutcomeIs(v: Space, r: Outcome<Space>, addr: nat, p: nat, length: nat, flags: nat)
    requires v.Valid()
    requires r.Done? ==> r.value.Valid() && DirectMapped(v, r.value, addr, p, length, flags)
    requires r.Halted? && !NeverEnds(addr, length) ==>
               || (r.why == Remapped && !RangeUnmapped(v, addr, PageCount(addr, length)))
               || (r.why == HeapExhausted && NoRoom(v, RangeNodes(addr, PageCount(addr, length))))
    ensures MapOutcome(v, r, addr, p, length, flags)
  {
    if r.Done? { HadRoom(v, r.value, RangeNodes(addr, PageCount(addr, length))); }
  }
}
