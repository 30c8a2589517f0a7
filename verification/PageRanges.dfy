/**
 Ranges of virtual pages and the tables they pass through, and the bookkeeping of page-sized allocations: what
 the two paging codes share.
*/
module PageRanges {
  import opened Memory
  import opened PageTables

  /** The page number of the k-th page of a range. */
  function PageAt(addr: nat, k: nat): (v: nat)
    ensures v < VPN_COUNT
  {
    (Vpn(addr) + k) % VPN_COUNT
  }

  /** How far a page lies above the start of a range, counted cyclically. */
  function PageOffset(addr: nat, vpn: nat): (d: nat)
    requires vpn < VPN_COUNT
    ensures d < VPN_COUNT
  {
    (vpn + VPN_COUNT - Vpn(addr)) % VPN_COUNT
  }

  lemma PageAtOffset(addr: nat, k: nat, vpn: nat)
    requires k < VPN_COUNT && vpn < VPN_COUNT
    ensures PageAt(addr, k) == vpn <==> PageOffset(addr, vpn) == k
  {
  }

  lemma PageAtAddress(addr: nat, k: nat)
    requires addr % PAGE_SIZE == 0
    ensures Vpn(addr + k * PAGE_SIZE) == PageAt(addr, k)
  {
    var a := addr / 0x1000;
    assert addr == 0x1000 * a;
    PagesAdd(a, k);
    assert a == 0x10_0000_0000 * (a / 0x10_0000_0000) + a % 0x10_0000_0000;
    VpnMod(a / 0x10_0000_0000, a % 0x10_0000_0000 + k);
  }

  lemma PagesAdd(a: nat, k: nat)
    ensures (0x1000 * a + k * 0x1000) / 0x1000 == a + k
  {
  }

  lemma VpnMod(c: nat, x: nat)
    ensures (0x10_0000_0000 * c + x) % 0x10_0000_0000 == x % 0x10_0000_0000
  {
    var d, y := x / 0x10_0000_0000, x % 0x10_0000_0000;
    assert 0x10_0000_0000 * c + x == 0x10_0000_0000 * (c + d) + y;
  }

  lemma VpnWraps(x: nat)
    ensures Vpn(x % TWO64) == Vpn(x)
  {
    var q, r := x / 0x1_0000_0000_0000_0000, x % 0x1_0000_0000_0000_0000;
    assert x == 0x1_0000_0000_0000_0000 * q + r;
    WrapPages(q, r);
  }

  lemma WrapPages(q: nat, r: nat)
    ensures (0x1_0000_0000_0000_0000 * q + r) / 0x1000 % 0x10_0000_0000 == r / 0x1000 % 0x10_0000_0000
  {
    assert (0x1_0000_0000_0000_0000 * q + r) / 0x1000 == 0x10_0000_0000 * (0x1_0000 * q) + r / 0x1000;
    VpnMod(0x1_0000 * q, r / 0x1000);
  }

  /** All of [addr, addr + n pages) lies in one half of the canonical address space. */
  predicate CanonicalRange(addr: nat, n: nat) {
    && addr % PAGE_SIZE == 0
    && (addr + n * PAGE_SIZE <= 0x8000_0000_0000
        || (0xFFFF_8000_0000_0000 <= addr && addr + n * PAGE_SIZE <= TWO64))
  }

  predicate InRange(addr: nat, n: nat, va: nat) {
    addr <= va < addr + n * PAGE_SIZE
  }

  lemma OffsetInRange(addr: nat, n: nat, va: nat)
    requires CanonicalRange(addr, n) && Canonical(va)
    ensures InRange(addr, n, va) <==> PageOffset(addr, Vpn(va)) < n
    ensures InRange(addr, n, va) ==> PageOffset(addr, Vpn(va)) == (va - addr) / 0x1000
  {
    var a, b := addr / 0x1000, va / 0x1000;
    assert va == b * 0x1000 + va % 0x1000;
    assert addr == a * 0x1000;
    OffsetOfPages(a, b, n);
    assert InRange(addr, n, va) <==> a <= b < a + n;
    if a <= b {
      assert (va - addr) / 0x1000 == b - a;
    }
  }

  lemma OffsetOfPages(a: nat, b: nat, n: nat)
    requires (a + n <= 0x8_0000_0000) || (0xF_FFF8_0000_0000 <= a && a + n <= 0x10_0000_0000_0000)
    requires b < 0x8_0000_0000 || 0xF_FFF8_0000_0000 <= b < 0x10_0000_0000_0000
    ensures var d := (b % 0x10_0000_0000 + 0x10_0000_0000 - a % 0x10_0000_0000) % 0x10_0000_0000;
            (d < n <==> a <= b < a + n) && (a <= b < a + n ==> d == b - a)
  {
  }

  lemma FrameAndFlags(f: nat, flags: nat)
    requires f < 0x100_0000_0000 && flags < 0x100 && flags % 2 == 1
    ensures EntryFrame(f * 0x1000 + flags) == f
    ensures (f * 0x1000 + flags) % 0x1000 == flags && Present(f * 0x1000 + flags)
  {
    assert (f * 0x1000 + flags) / 0x1000 == f;
  }

  // ----- the tables of a range -----

  /** The tables below the root on the way to a page. */
  function Path(vpn: nat): set<Node> {
    {NodeOf(3, vpn), NodeOf(2, vpn), NodeOf(1, vpn)}
  }

  /** The way from the root to the leaf table of a page. */
  lemma PathSteps(vpn: nat)
    requires vpn < VPN_COUNT
    ensures Child(Node(4, 0), Index(4, vpn)) == NodeOf(3, vpn)
    ensures Child(NodeOf(3, vpn), Index(3, vpn)) == NodeOf(2, vpn)
    ensures Child(NodeOf(2, vpn), Index(2, vpn)) == NodeOf(1, vpn)
    ensures NodeOf(3, vpn).level == 3 && NodeOf(2, vpn).level == 2
  {
    TopPrefix(vpn);
    NodeChild(4, vpn);
    NodeChild(3, vpn);
    NodeChild(2, vpn);
  }

  function RangeNodes(addr: nat, n: nat): set<Node> {
    if n == 0 then {} else RangeNodes(addr, n - 1) + Path(PageAt(addr, n - 1))
  }

  lemma {:induction false} PathInRange(addr: nat, n: nat, k: nat)
    requires k < n
    ensures Path(PageAt(addr, k)) <= RangeNodes(addr, n)
  {
    if k < n - 1 {
      PathInRange(addr, n - 1, k);
    }
  }

  lemma {:induction false} RangeSteps(addr: nat, k: nat, n: nat)
    requires k < n
    ensures RangeNodes(addr, k + 1) == RangeNodes(addr, k) + Path(PageAt(addr, k))
    ensures RangeNodes(addr, k + 1) <= RangeNodes(addr, n)
    ensures RangeNodes(addr, k) <= RangeNodes(addr, n) && Path(PageAt(addr, k)) <= RangeNodes(addr, n)
  {
    if k + 1 < n {
      RangeSteps(addr, k, n - 1);
    }
  }

  ghost predicate OutsideTables(tables: Tables, k: nat) {
    forall n :: n in tables ==> k < tables[n] || tables[n] + PAGE_SIZE <= k
  }

  lemma OutsideFewer(tables: Tables, tables': Tables)
    requires forall n :: n in tables ==> n in tables' && tables'[n] == tables[n]
    ensures forall k :: OutsideTables(tables', k) ==> OutsideTables(tables, k)
  {
  }

  // ----- page-sized allocations -----

  lemma PageUpIsAlignUp(x: nat)
    ensures PageUp(x) == AlignUp(x, PAGE_SIZE)
  {
    assert AlignUp(x, PAGE_SIZE) % 0x1000 == 0;
  }

  /** The cursor after c page-sized, page-aligned allocations. */
  function BaseAfter(base: nat, c: nat): nat {
    if c == 0 then base else PageUp(base) + 0x1000 * c
  }

  lemma BaseAfterMonotone(base: nat, c: nat, d: nat)
    requires c <= d
    ensures BaseAfter(base, c) <= BaseAfter(base, d)
  {
  }

  lemma BaseAfterAdds(base: nat, c: nat, d: nat)
    ensures BaseAfter(BaseAfter(base, c), d) == BaseAfter(base, c + d)
  {
    assert (PageUp(base) + 0x1000 * c) % 0x1000 == 0;
  }

  lemma MadeAndMissing<T>(before: set<T>, after: set<T>, missing: set<T>, target: set<T>)
    requires before <= after <= before + target && missing <= target
    ensures |after| - |before| + |missing - after| <= |target - before|
  {
    var made := after - before;
    var rest := missing - after;
    DisjointSize(before, made);
    assert before + made == after;
    DisjointSize(made, rest);
    SubsetSize(made + rest, target - before);
  }

  lemma DisjointSize<T>(a: set<T>, b: set<T>)
    requires a !! b
    ensures |a + b| == |a| + |b|
  {
  }

  lemma SubsetSize<T>(a: set<T>, b: set<T>)
    requires a <= b
    ensures |a| <= |b|
  {
    assert a + (b - a) == b;
    DisjointSize(a, b - a);
  }

  lemma KeysStep<T>(keys: set<T>, start: set<T>, nodes: set<T>, path: set<T>)
    requires keys == start + nodes
    ensures keys + path == start + (nodes + path)
  {
  }
}
