/**
 Four-level page tables in physical memory: the walk done by the processor
 (4-level paging, Intel SDM volume 3A, section 4.5), the shape that both the Lobo memory
 manager and the AWD boot loader keep, and the flat map from virtual page numbers to leaf
 entries that such a tree stands for.
*/
module PageTables {
  import opened Memory

  const ENTRIES: nat := 512
  /** Virtual page numbers have 36 bits: 4 levels of 9. */
  const VPN_COUNT: nat := 0x10_0000_0000
  const PHYS_LIMIT: nat := 0x10_0000_0000_0000

  /** Present and writable: the bits both programs put in every entry above the leaves. */
  const LINK_FLAGS: nat := 3

  // ----- addresses -----

  function Vpn(va: nat): (v: nat)
    ensures v < VPN_COUNT
  {
    va / PAGE_SIZE % VPN_COUNT
  }

  /** Bits 63..47 all equal. */
  predicate Canonical(va: nat) {
    va < 0x8000_0000_0000 || 0xFFFF_8000_0000_0000 <= va < TWO64
  }

  /** The part of a page number that selects the table of a level; level 0 is the page itself. */
  function Prefix(level: nat, vpn: nat): nat {
    if level == 0 then vpn else Prefix(level - 1, vpn) / ENTRIES
  }

  /** The index used in the table of a level >= 1. */
  function Index(level: nat, vpn: nat): (i: nat)
    requires level >= 1
    ensures i < ENTRIES
  {
    Prefix(level - 1, vpn) % ENTRIES
  }

  lemma TopPrefix(vpn: nat)
    requires vpn < VPN_COUNT
    ensures Prefix(4, vpn) == 0 && Prefix(3, vpn) < 512 && Prefix(2, vpn) < 0x40000 && Prefix(1, vpn) < 0x800_0000
    ensures Prefix(1, vpn) == vpn / 512
  {
    assert Prefix(1, vpn) == Prefix(0, vpn) / 512;
    assert Prefix(2, vpn) == Prefix(1, vpn) / 512;
    assert Prefix(3, vpn) == Prefix(2, vpn) / 512;
  }

  /** The shift-and-mask table indices computed from an address are the page number's digits. */
  lemma AddressIndices(va: nat)
    ensures va / 0x80_0000_0000 % 512 == Index(4, Vpn(va))
    ensures va / 0x4000_0000 % 512 == Index(3, Vpn(va))
    ensures va / 0x20_0000 % 512 == Index(2, Vpn(va))
    ensures va / 0x1000 % 512 == Index(1, Vpn(va))
  {
    var p := va / 0x1000;
    var v := Vpn(va);
    var q := p / VPN_COUNT;
    assert p == q * VPN_COUNT + v;
    assert Prefix(1, v) == v / 512;
    assert Prefix(2, v) == Prefix(1, v) / 512;
    assert Prefix(3, v) == Prefix(2, v) / 512;
    assert va / 0x20_0000 == p / 512 == q * 0x800_0000 + v / 512;
    assert va / 0x4000_0000 == p / 512 / 512 == q * 0x4_0000 + v / 512 / 512;
    assert va / 0x80_0000_0000 == p / 512 / 512 / 512 == q * 512 + v / 512 / 512 / 512;
  }

  /** Distinct canonical pages have distinct page numbers. */
  lemma CanonicalPagesDistinct(a: nat, b: nat)
    requires Canonical(a) && Canonical(b) && Vpn(a) == Vpn(b)
    ensures a / PAGE_SIZE == b / PAGE_SIZE
  {
    CanonicalPage(a);
    CanonicalPage(b);
    PageHalf(a / 0x1000);
    PageHalf(b / 0x1000);
  }

  lemma CanonicalPage(a: nat)
    requires Canonical(a)
    ensures a / 0x1000 < 0x8_0000_0000 || 0xF_FFF8_0000_0000 <= a / 0x1000 < 0x10_0000_0000_0000
  {
  }

  lemma PageHalf(p: nat)
    requires p < 0x8_0000_0000 || 0xF_FFF8_0000_0000 <= p < 0x10_0000_0000_0000
    ensures p < 0x8_0000_0000 ==> p % 0x10_0000_0000 == p
    ensures p >= 0x8_0000_0000 ==> p % 0x10_0000_0000 == p - 0xF_FFF0_0000_0000 >= 0x8_0000_0000
  {
  }

  // ----- the processor's walk -----

  datatype Translation =
    | Fault
    | Page(frame: nat, flags: nat)
    | LargePage(level: nat)

  /** Bits 51..12 of an entry. */
  function EntryFrame(e: nat): nat {
    e / PAGE_SIZE % 0x100_0000_0000
  }

  function Entry(m: Mem, table: nat, i: nat): nat
    requires table + PAGE_SIZE <= |m| && i < ENTRIES
  {
    LoadWord(m, table + 8 * i)
  }

  function SetEntry(m: Mem, table: nat, i: nat, v: nat): (r: Mem)
    requires table + PAGE_SIZE <= |m| && i < ENTRIES
    ensures |r| == |m|
  {
    StoreWord(m, table + 8 * i, v)
  }

  ghost predicate Blank(m: Mem, t: nat)
    requires t + PAGE_SIZE <= |m|
  {
    forall i: nat :: i < ENTRIES ==> Entry(m, t, i) == 0
  }

  function WalkFrom(m: Mem, table: nat, level: nat, vpn: nat): Translation
    requires level <= 4
    decreases level
  {
    if level == 0 || table + PAGE_SIZE > |m| then Fault
    else
      var e := Entry(m, table, Index(level, vpn));
      if e % 2 == 0 then Fault
      else if level == 1 then Page(EntryFrame(e), e % PAGE_SIZE)
      else if level <= 3 && e / 0x80 % 2 == 1 then LargePage(level)
      else WalkFrom(m, EntryFrame(e) * PAGE_SIZE, level - 1, vpn)
  }

  /** What the processor makes of a virtual address; flags are the low 12 bits of the leaf. */
  function HardwareWalk(m: Mem, cr3: nat, va: nat): Translation {
    if !Canonical(va) then Fault else WalkFrom(m, cr3, 4, Vpn(va))
  }

  /**
   The walk in terms of loads: entry by entry from cr3, indexed by bits 47..39, 38..30, 29..21 and 20..12 of the
   address; bits 51..12 of each entry are the next table, bit 0 says it is present, bit 7 that a page ends there.
  */
  lemma WalkIsFourLoads(m: Mem, cr3: nat, va: nat, e4: nat, e3: nat, e2: nat, e1: nat)
    requires va < 0x8000_0000_0000 || 0xFFFF_8000_0000_0000 <= va < 0x1_0000_0000_0000_0000
    requires cr3 + 0x1000 <= |m| && e4 == LoadWord(m, cr3 + 8 * (va / 0x80_0000_0000 % 512))
    requires e4 % 2 == 1 && Table(e4) + 0x1000 <= |m|
    requires e3 == LoadWord(m, Table(e4) + 8 * (va / 0x4000_0000 % 512)) && e3 % 2 == 1 && e3 / 0x80 % 2 == 0
    requires Table(e3) + 0x1000 <= |m| && e2 == LoadWord(m, Table(e3) + 8 * (va / 0x20_0000 % 512))
    requires e2 % 2 == 1 && e2 / 0x80 % 2 == 0 && Table(e2) + 0x1000 <= |m|
    requires e1 == LoadWord(m, Table(e2) + 8 * (va / 0x1000 % 512))
    ensures HardwareWalk(m, cr3, va) ==
              if e1 % 2 == 1 then Page(e1 / 0x1000 % 0x100_0000_0000, e1 % 0x1000) else Fault
  {
    hide Prefix, Index, Vpn, LoadWord;
    AddressIndices(va);
    var v := Vpn(va);
    assert WalkFrom(m, Table(e2), 1, v) == if e1 % 2 == 1 then Page(EntryFrame(e1), e1 % PAGE_SIZE) else Fault;
    assert WalkFrom(m, Table(e3), 2, v) == WalkFrom(m, Table(e2), 1, v);
    assert WalkFrom(m, Table(e4), 3, v) == WalkFrom(m, Table(e3), 2, v);
  }

  /** The table an entry leads to: its bits 51..12. */
  function Table(e: nat): nat {
    e / 0x1000 % 0x100_0000_0000 * 0x1000
  }

  // ----- the shape of the tree -----

  /** A table is named by its level (4 is the root, 1 holds leaves) and the page-number prefix it serves. */
  datatype Node = Node(level: nat, prefix: nat)

  type Tables = map<Node, nat>

  function Child(n: Node, i: nat): Node
    requires n.level >= 1
  {
    Node(n.level - 1, n.prefix * ENTRIES + i)
  }

  function Parent(n: Node): Node {
    Node(n.level + 1, n.prefix / ENTRIES)
  }

  function NodeOf(level: nat, vpn: nat): Node {
    Node(level, Prefix(level, vpn))
  }

  lemma NodeChild(level: nat, vpn: nat)
    requires level >= 1
    ensures Child(NodeOf(level, vpn), Index(level, vpn)) == NodeOf(level - 1, vpn)
    ensures Parent(NodeOf(level - 1, vpn)) == NodeOf(level, vpn)
  {
    var p := Prefix(level - 1, vpn);
    assert p / ENTRIES * ENTRIES + p % ENTRIES == p;
  }

  ghost predicate TableOk(m: Mem, n: Node, t: nat) {
    && 1 <= n.level <= 4
    && (n.level == 4 ==> n.prefix == 0)
    && t % PAGE_SIZE == 0
    && t + PAGE_SIZE <= |m|
  }

  ghost predicate InMemory(m: Mem, tables: Tables) {
    forall n :: n in tables ==> TableOk(m, n, tables[n])
  }

  ghost predicate Injective(tables: Tables) {
    forall n, n' :: n in tables && n' in tables && tables[n] == tables[n'] ==> n == n'
  }

  ghost predicate Connected(tables: Tables) {
    forall n :: n in tables && n.level < 4 ==> Parent(n) in tables
  }

  /** What an entry of a table above the leaves holds: a link to the child, or nothing. */
  function LinkWord(tables: Tables, n: Node, i: nat): nat
    requires n.level >= 1
  {
    if Child(n, i) in tables then tables[Child(n, i)] + LINK_FLAGS else 0
  }

  ghost predicate Linked(m: Mem, tables: Tables)
    requires InMemory(m, tables)
  {
    forall n, i: nat :: n in tables && n.level >= 2 && i < ENTRIES ==>
      Entry(m, tables[n], i) == LinkWord(tables, n, i)
  }

  /**
   The tables form a tree below root: every table is page aligned, lies in memory, is reached by exactly
   one path, and every non-zero entry above the leaves points to its own table.
  */
  ghost predicate Tree(m: Mem, tables: Tables, root: nat) {
    && |m| <= PHYS_LIMIT
    && Node(4, 0) in tables && tables[Node(4, 0)] == root
    && InMemory(m, tables)
    && Injective(tables)
    && Connected(tables)
    && Linked(m, tables)
  }

  /** The leaf entry of a virtual page; a page without a leaf table reads as 0. */
  ghost function Leaf(m: Mem, tables: Tables, vpn: nat): nat
    requires InMemory(m, tables)
  {
    var n := NodeOf(1, vpn);
    if n in tables then Entry(m, tables[n], Index(1, vpn)) else 0
  }

  predicate Present(leaf: nat) {
    leaf % 2 == 1
  }

  function LeafTranslation(leaf: nat): Translation {
    if Present(leaf) then Page(EntryFrame(leaf), leaf % PAGE_SIZE) else Fault
  }

  /** A link word leads the hardware to the child table. */
  lemma LinkDecodes(t: nat)
    requires t % PAGE_SIZE == 0 && t < PHYS_LIMIT
    ensures EntryFrame(t + LINK_FLAGS) * PAGE_SIZE == t
    ensures (t + LINK_FLAGS) % 2 == 1 && (t + LINK_FLAGS) / 0x80 % 2 == 0
  {
    var q := t / 0x1000;
    assert t == 0x1000 * q;
    LinkDigits(q);
  }

  lemma LinkDigits(q: nat)
    requires q < 0x100_0000_0000
    ensures (0x1000 * q + 3) / 0x1000 == q && q % 0x100_0000_0000 == q
    ensures (0x1000 * q + 3) % 2 == 1 && (0x1000 * q + 3) / 0x80 % 2 == 0
  {
    LinkPage(q);
    LinkLowBit(q);
    LinkSizeBit(q);
  }

  lemma LinkPage(q: nat)
    ensures (0x1000 * q + 3) / 0x1000 == q
  {
  }

  lemma LinkLowBit(q: nat)
    ensures (0x1000 * q + 3) % 2 == 1
  {
  }

  lemma LinkSizeBit(q: nat)
    ensures (0x1000 * q + 3) / 0x80 % 2 == 0
  {
    assert (0x80 * (32 * q) + 3) / 0x80 == 32 * q;
    assert 32 * q % 2 == 0;
  }

  lemma {:induction false} WalkFromIsLeaf(m: Mem, tables: Tables, root: nat, level: nat, vpn: nat)
    requires Tree(m, tables, root) && 1 <= level <= 4
    requires NodeOf(level, vpn) in tables
    ensures WalkFrom(m, tables[NodeOf(level, vpn)], level, vpn) == LeafTranslation(Leaf(m, tables, vpn))
    decreases level
  {
    hide Tree, Linked, InMemory, Injective, Connected, Prefix, Index;
    WalkStep(m, tables, root, level, vpn);
    if level > 1 {
      if NodeOf(level - 1, vpn) in tables {
        WalkFromIsLeaf(m, tables, root, level - 1, vpn);
      } else {
        TreeConnected(m, tables, root);
        NoLeafTable(tables, level - 1, vpn);
      }
    }
  }

  lemma TreeConnected(m: Mem, tables: Tables, root: nat)
    requires Tree(m, tables, root)
    ensures Connected(tables)
  {
  }

  /** One step of the walk in a tree: to the child's table, or to a fault when there is none. */
  lemma WalkStep(m: Mem, tables: Tables, root: nat, level: nat, vpn: nat)
    requires Tree(m, tables, root) && 1 <= level <= 4 && NodeOf(level, vpn) in tables
    ensures InMemory(m, tables)
    ensures var t := tables[NodeOf(level, vpn)];
            WalkFrom(m, t, level, vpn) ==
              if level == 1 then LeafTranslation(Entry(m, t, Index(1, vpn)))
              else if NodeOf(level - 1, vpn) in tables then WalkFrom(m, tables[NodeOf(level - 1, vpn)], level - 1, vpn)
              else Fault
  {
    hide Tree, InMemory, Linked, Injective, Connected, Prefix, Index, Entry;
    WalkSlot(m, tables, root, level, vpn);
    if level > 1 && NodeOf(level - 1, vpn) in tables {
      LinkDecodes(tables[NodeOf(level - 1, vpn)]);
    }
  }

  /** What the walk reads in the table of a level. */
  lemma WalkSlot(m: Mem, tables: Tables, root: nat, level: nat, vpn: nat)
    requires Tree(m, tables, root) && 1 <= level <= 4 && NodeOf(level, vpn) in tables
    ensures InMemory(m, tables) && TableOk(m, NodeOf(level, vpn), tables[NodeOf(level, vpn)])
    ensures var e, c := Entry(m, tables[NodeOf(level, vpn)], Index(level, vpn)), NodeOf(level - 1, vpn);
            level > 1 ==> if c in tables then TableOk(m, c, tables[c]) && tables[c] < PHYS_LIMIT && e == tables[c] + LINK_FLAGS
                          else e == 0
  {
    var n := NodeOf(level, vpn);
    assert TableOk(m, n, tables[n]);
    if level > 1 {
      var c := NodeOf(level - 1, vpn);
      NodeChild(level, vpn);
      assert Entry(m, tables[n], Index(level, vpn)) == LinkWord(tables, n, Index(level, vpn));
      assert c in tables ==> TableOk(m, c, tables[c]);
    }
  }

  /** Without the table of a level there is no table below it. */
  lemma {:induction false} NoLeafTable(tables: Tables, level: nat, vpn: nat)
    requires Connected(tables) && 1 <= level < 4 && NodeOf(level, vpn) !in tables
    ensures NodeOf(1, vpn) !in tables
  {
    if level > 1 {
      NodeChild(level, vpn);
      NoLeafTable(tables, level - 1, vpn);
    }
  }

  /** Refinement: on a tree, the processor's walk is the flat map. */
  lemma WalkRefinesFlatMap(m: Mem, tables: Tables, root: nat, va: nat)
    requires Tree(m, tables, root) && Canonical(va)
    ensures HardwareWalk(m, root, va) == LeafTranslation(Leaf(m, tables, Vpn(va)))
  {
    TopPrefix(Vpn(va));
    assert NodeOf(4, Vpn(va)) == Node(4, 0);
    WalkFromIsLeaf(m, tables, root, 4, Vpn(va));
  }

  // ----- steps on trees -----

  /** Two memories that hold the same bytes in every table. */
  ghost predicate SameTables(m: Mem, m': Mem, tables: Tables) {
    && |m| == |m'|
    && forall n, k :: n in tables && tables[n] <= k < tables[n] + PAGE_SIZE && k < |m| ==> m[k] == m'[k]
  }

  lemma SameEntries(m: Mem, m': Mem, tables: Tables)
    requires InMemory(m, tables) && SameTables(m, m', tables)
    ensures InMemory(m', tables)
    ensures forall n, i: nat :: n in tables && i < ENTRIES ==> Entry(m', tables[n], i) == Entry(m, tables[n], i)
    ensures forall vpn: nat :: Leaf(m', tables, vpn) == Leaf(m, tables, vpn)
  {
    forall n | n in tables ensures TableOk(m', n, tables[n]) {
      assert TableOk(m, n, tables[n]);
    }
    forall n, i: nat | n in tables && i < ENTRIES
      ensures Entry(m', tables[n], i) == Entry(m, tables[n], i)
    {
      assert TableOk(m, n, tables[n]);
      LoadWordAgree(m, m', tables[n] + 8 * i);
    }
  }

  lemma TreeFrame(m: Mem, m': Mem, tables: Tables, root: nat)
    requires Tree(m, tables, root) && SameTables(m, m', tables)
    ensures Tree(m', tables, root)
    ensures forall vpn: nat :: Leaf(m', tables, vpn) == Leaf(m, tables, vpn)
  {
    SameEntries(m, m', tables);
  }

  /** Distinct tables do not overlap. */
  lemma TablesApart(m: Mem, n: Node, t: nat, n': Node, t': nat, i: nat, j: nat)
    requires TableOk(m, n, t) && TableOk(m, n', t') && t != t' && i < ENTRIES && j < ENTRIES
    ensures t + 8 * i + 8 <= t' + 8 * j || t' + 8 * j + 8 <= t + 8 * i
  {
  }

  lemma ChildInjective(n: Node, i: nat, n': Node, i': nat)
    requires n.level >= 1 && n'.level >= 1 && i < ENTRIES && i' < ENTRIES
    requires Child(n, i) == Child(n', i')
    ensures n == n' && i == i'
  {
    assert (n.prefix * ENTRIES + i) / ENTRIES == n.prefix;
    assert (n'.prefix * ENTRIES + i') / ENTRIES == n'.prefix;
  }

  lemma ParentOfChild(n: Node, i: nat)
    requires n.level >= 1 && i < ENTRIES
    ensures Parent(Child(n, i)) == n
  {
    assert (n.prefix * ENTRIES + i) / ENTRIES == n.prefix;
  }

  /** A zeroed, aligned page that is no table yet. */
  ghost predicate BlankPage(m: Mem, tables: Tables, t: nat) {
    && t % PAGE_SIZE == 0 && t + PAGE_SIZE <= |m|
    && (forall n :: n in tables ==> tables[n] != t)
    && Blank(m, t)
  }

  /** One word of one table changes: the effect on all entries of all tables. */
  lemma StoreEntry(m: Mem, tables: Tables, n: Node, i: nat, v: nat)
    requires InMemory(m, tables) && Injective(tables) && n in tables && i < ENTRIES && v < TWO64
    requires TableOk(m, n, tables[n])
    ensures InMemory(SetEntry(m, tables[n], i, v), tables)
    ensures forall n', j: nat | n' in tables && j < ENTRIES ::
              Entry(SetEntry(m, tables[n], i, v), tables[n'], j)
                == if n' == n && j == i then v else Entry(m, tables[n'], j)
  {
    var m' := SetEntry(m, tables[n], i, v);
    StoreWordEffect(m, tables[n] + 8 * i, v);
    forall n' | n' in tables ensures TableOk(m', n', tables[n']) {
      assert TableOk(m, n', tables[n']);
    }
    forall n', j: nat | n' in tables && j < ENTRIES
      ensures Entry(m', tables[n'], j) == if n' == n && j == i then v else Entry(m, tables[n'], j)
    {
      assert TableOk(m, n', tables[n']);
      if n' != n {
        TablesApart(m, n, tables[n], n', tables[n'], i, j);
      }
    }
  }

  lemma BlankAfterStore(m: Mem, tables: Tables, n: Node, i: nat, v: nat, t: nat)
    requires n in tables && i < ENTRIES && v < TWO64 && TableOk(m, n, tables[n]) && BlankPage(m, tables, t)
    ensures Blank(SetEntry(m, tables[n], i, v), t)
  {
    StoreWordEffect(m, tables[n] + 8 * i, v);
    forall j: nat | j < ENTRIES
      ensures Entry(SetEntry(m, tables[n], i, v), t, j) == 0
    {
      TablesApart(m, n, tables[n], n, t, i, j);
      assert Entry(m, t, j) == 0;
    }
  }

  /** Linking a blank page in as a missing child keeps the tree and every leaf. */
  lemma LinkTable(m: Mem, tables: Tables, root: nat, n: Node, i: nat, t: nat)
    requires Tree(m, tables, root) && n in tables && n.level >= 2 && i < ENTRIES
    requires Child(n, i) !in tables && BlankPage(m, tables, t)
    ensures Tree(SetEntry(m, tables[n], i, t + LINK_FLAGS), tables[Child(n, i) := t], root)
    ensures forall vpn: nat ::
              Leaf(SetEntry(m, tables[n], i, t + LINK_FLAGS), tables[Child(n, i) := t], vpn) == Leaf(m, tables, vpn)
  {
    hide Entry, SetEntry, LinkWord, BlankPage;
    var m' := SetEntry(m, tables[n], i, t + LINK_FLAGS);
    var tables' := tables[Child(n, i) := t];
    LinkedShape(m, tables, root, n, i, t);
    assert TableOk(m, n, tables[n]);
    forall n', j: nat | n' in tables' && n'.level >= 2 && j < ENTRIES
      ensures Entry(m', tables'[n'], j) == LinkWord(tables', n', j)
    {
      LinkedAfterLink(m, tables, root, n, i, t, n', j);
    }
    forall vpn: nat ensures Leaf(m', tables', vpn) == Leaf(m, tables, vpn) {
      LeafAfterLink(m, tables, root, n, i, t, vpn);
    }
  }

  /** All of LinkTable but the contents of entries. */
  lemma LinkedShape(m: Mem, tables: Tables, root: nat, n: Node, i: nat, t: nat)
    requires Tree(m, tables, root) && n in tables && n.level >= 2 && i < ENTRIES
    requires Child(n, i) !in tables && BlankPage(m, tables, t)
    ensures n in tables && tables[n] + PAGE_SIZE <= |m|
    ensures var tables' := tables[Child(n, i) := t];
            InMemory(SetEntry(m, tables[n], i, t + LINK_FLAGS), tables') && Injective(tables') && Connected(tables')
  {
    hide Linked, Entry, SetEntry, Blank;
    assert TableOk(m, n, tables[n]);
    ParentOfChild(n, i);
    forall n' | n' in tables ensures TableOk(m, n', tables[n']) {
    }
  }

  lemma LeafAfterLink(m: Mem, tables: Tables, root: nat, n: Node, i: nat, t: nat, vpn: nat)
    requires Tree(m, tables, root) && n in tables && n.level >= 2 && i < ENTRIES && TableOk(m, n, tables[n])
    requires Child(n, i) !in tables && BlankPage(m, tables, t)
    requires InMemory(SetEntry(m, tables[n], i, t + LINK_FLAGS), tables[Child(n, i) := t])
    ensures Leaf(SetEntry(m, tables[n], i, t + LINK_FLAGS), tables[Child(n, i) := t], vpn) == Leaf(m, tables, vpn)
  {
    hide Tree, Linked, Injective, Connected, SetEntry, Entry, Index, Prefix;
    TreeParts(m, tables, root);
    StoreEntry(m, tables, n, i, t + LINK_FLAGS);
    BlankAfterStore(m, tables, n, i, t + LINK_FLAGS, t);
  }

  lemma TreeParts(m: Mem, tables: Tables, root: nat)
    requires Tree(m, tables, root)
    ensures InMemory(m, tables) && Injective(tables) && |m| <= PHYS_LIMIT
  {
  }

  /** The entry-by-entry part of LinkTable. */
  lemma LinkedAfterLink(m: Mem, tables: Tables, root: nat, n: Node, i: nat, t: nat, n': Node, j: nat)
    requires Tree(m, tables, root) && n in tables && n.level >= 2 && i < ENTRIES && j < ENTRIES
    requires Child(n, i) !in tables && BlankPage(m, tables, t) && TableOk(m, n, tables[n])
    requires n' in tables[Child(n, i) := t] && n'.level >= 2
    requires tables[Child(n, i) := t][n'] + PAGE_SIZE <= |m|
    ensures Entry(SetEntry(m, tables[n], i, t + LINK_FLAGS), tables[Child(n, i) := t][n'], j)
      == LinkWord(tables[Child(n, i) := t], n', j)
  {
    var c := Child(n, i);
    var tables' := tables[c := t];
    StoreEntry(m, tables, n, i, t + LINK_FLAGS);
    if n' == c {
      BlankAfterStore(m, tables, n, i, t + LINK_FLAGS, t);
      ParentOfChild(c, j);
      assert Child(c, j) !in tables;
      assert Child(c, j) != c;
    } else {
      assert Entry(m, tables[n'], j) == LinkWord(tables, n', j);
      if Child(n', j) == c {
        ChildInjective(n, i, n', j);
      }
    }
  }

  /** Writing a leaf changes that page and nothing else. */
  lemma WriteLeaf(m: Mem, tables: Tables, root: nat, vpn: nat, v: nat)
    requires Tree(m, tables, root) && NodeOf(1, vpn) in tables && v < TWO64
    requires TableOk(m, NodeOf(1, vpn), tables[NodeOf(1, vpn)])
    ensures Tree(SetEntry(m, tables[NodeOf(1, vpn)], Index(1, vpn), v), tables, root)
    ensures forall p: nat ::
              Leaf(SetEntry(m, tables[NodeOf(1, vpn)], Index(1, vpn), v), tables, p)
                == if p == vpn then v else Leaf(m, tables, p)
  {
    var n := NodeOf(1, vpn);
    var i := Index(1, vpn);
    var m' := SetEntry(m, tables[n], i, v);
    StoreEntry(m, tables, n, i, v);
    NodeChild(1, vpn);
    forall p: nat ensures Leaf(m', tables, p) == if p == vpn then v else Leaf(m, tables, p) {
      NodeChild(1, p);
      assert p != vpn ==> NodeOf(0, p) != NodeOf(0, vpn);
    }
  }

  /** A zeroed root page is the tree that maps nothing. */
  lemma EmptyTree(m: Mem, root: nat)
    requires |m| <= PHYS_LIMIT && root % PAGE_SIZE == 0 && root + PAGE_SIZE <= |m|
    requires forall k :: root <= k < root + PAGE_SIZE ==> m[k] == 0
    ensures Tree(m, map[Node(4, 0) := root], root)
    ensures forall vpn: nat :: Leaf(m, map[Node(4, 0) := root], vpn) == 0
  {
    var tables := map[Node(4, 0) := root];
    forall i: nat | i < ENTRIES ensures Entry(m, root, i) == 0 {
      LoadWordZero(m, root + 8 * i);
    }
  }
}
