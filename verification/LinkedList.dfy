/** The singly linked list the kernel keeps its threads in. */
module LinkedLists {
  import opened Outcomes
  import opened Memory
  import opened KernelMemory

  /** A node holds a value of one word and a link. */
  const NODE_SIZE: nat := 16

  datatype Option<+T> = None | Some(value: T)

  class ListNode<T> {
    var m_value: T
    var m_next: ListNode?<T>

    constructor (value: T, next: ListNode?<T>)
      ensures m_value == value && m_next == next
    {
      m_value, m_next := value, next;
    }
  }

  class SingleLinkedList<T> {
    var m_head: ListNode?<T>
    var m_tail: ListNode?<T>
    var m_size: nat
    ghost var nodes: seq<ListNode<T>>

    ghost predicate Valid()
      reads this, nodes
    {
      && m_size == |nodes|
      && (|nodes| == 0 ==> m_head == null && m_tail == null)
      && (|nodes| > 0 ==> m_head == nodes[0] && m_tail == nodes[|nodes| - 1] && m_tail.m_next == null)
      && (forall i {:trigger nodes[i].m_next} :: 0 <= i < |nodes| - 1 ==> nodes[i].m_next == nodes[i + 1])
      && (forall i, j :: 0 <= i < j < |nodes| ==> nodes[i] != nodes[j])
    }

    /** The values from head to tail. */
    ghost function Contents(): (s: seq<T>)
      reads this, nodes
      ensures |s| == |nodes|
    {
      seq(|nodes|, i requires 0 <= i < |nodes| reads this, nodes => nodes[i].m_value)
    }

    constructor ()
      ensures Valid() && Contents() == [] && nodes == []
    {
      m_head, m_tail, m_size, nodes := null, null, 0, [];
    }

    /** What taking a node from the heap comes to. */
    ghost function NodeTaken(heap: Heap, pmm: Pmm): Outcome<nat>
      reads heap, pmm
    {
      Heap.Result(heap.currentMode, heap.earlyAllocBase, heap.earlyAllocLimit, pmm.bitmap.m_length, NODE_SIZE, 8)
    }

    method PushBack(val: T, heap: Heap, pmm: Pmm) returns (r: Outcome<()>)
      requires Valid() && pmm.bitmap.Valid() && heap.earlyAllocBase + 8 + NODE_SIZE < TWO64
      modifies this, nodes, heap`earlyAllocBase, pmm.bitmap.m_ptr
      ensures r.Halted? <==> old(NodeTaken(heap, pmm)).Halted?
      ensures r.Halted? ==> Valid() && Contents() == old(Contents()) && nodes == old(nodes)
      ensures r.Done? ==>
                && Valid() && Contents() == old(Contents()) + [val]
                && |nodes| == |old(nodes)| + 1 && nodes[..|old(nodes)|] == old(nodes) && fresh(nodes[|old(nodes)|])
                && heap.earlyAllocBase == old(NodeTaken(heap, pmm)).value + NODE_SIZE
    {
      hide AlignUp, Heap.Result, Heap.Marked;
      ghost var values := Contents();
      if m_head == null {
        r := CreateHead(val, heap, pmm);
        return;
      }
      var _ :- heap.KmallocAligned(pmm, NODE_SIZE, 8);
      var newNode := new ListNode(val, null);
      m_tail.m_next := newNode;
      m_tail := newNode;
      m_size := m_size + 1;
      nodes := nodes + [newNode];
      assert forall i :: 0 <= i < |values| ==> nodes[i].m_value == values[i];
      forall i {:trigger nodes[i].m_next} | 0 <= i < |nodes| - 1 ensures nodes[i].m_next == nodes[i + 1] {
      }
      assert Contents() == values + [val];
      return Done(());
    }

    method PushFront(val: T, heap: Heap, pmm: Pmm) returns (r: Outcome<()>)
      requires Valid() && pmm.bitmap.Valid() && heap.earlyAllocBase + 8 + NODE_SIZE < TWO64
      modifies this, heap`earlyAllocBase, pmm.bitmap.m_ptr
      ensures r.Halted? <==> old(NodeTaken(heap, pmm)).Halted?
      ensures r.Halted? ==> Valid() && Contents() == old(Contents()) && nodes == old(nodes)
      ensures r.Done? ==>
                && Valid() && Contents() == [val] + old(Contents())
                && |nodes| == |old(nodes)| + 1 && nodes[1..] == old(nodes) && fresh(nodes[0])
                && heap.earlyAllocBase == old(NodeTaken(heap, pmm)).value + NODE_SIZE
    {
      hide AlignUp, Heap.Result, Heap.Marked;
      ghost var values := Contents();
      if m_head == null {
        r := CreateHead(val, heap, pmm);
        return;
      }
      var _ :- heap.KmallocAligned(pmm, NODE_SIZE, 8);
      var newNode := new ListNode(val, m_head);
      m_head := newNode;
      m_size := m_size + 1;
      nodes := [newNode] + nodes;
      assert forall i :: 1 <= i < |nodes| ==> nodes[i].m_value == values[i - 1];
      return Done(());
    }

    method CreateHead(val: T, heap: Heap, pmm: Pmm) returns (r: Outcome<()>)
      requires Valid() && m_head == null
      requires pmm.bitmap.Valid() && heap.earlyAllocBase + 8 + NODE_SIZE < TWO64
      modifies this, heap`earlyAllocBase, pmm.bitmap.m_ptr
      ensures r.Halted? <==> old(NodeTaken(heap, pmm)).Halted?
      ensures r.Halted? ==> Valid() && nodes == old(nodes)
      ensures r.Done? ==>
                && Valid() && Contents() == [val] && |nodes| == 1 && fresh(nodes[0])
                && heap.earlyAllocBase == old(NodeTaken(heap, pmm)).value + NODE_SIZE
    {
      var _ :- heap.KmallocAligned(pmm, NODE_SIZE, 8);
      m_head := new ListNode(val, null);
      m_size := 1;
      m_tail := m_head;
      nodes := [m_head];
      return Done(());
    }

    /** The value at an index, or nothing past the end. */
    method At(index: nat) returns (r: Option<T>)
      requires Valid()
      ensures r == if index < |Contents()| then Some(Contents()[index]) else None
    {
      if index >= m_size { return None; }
      var itr := m_head;
      for i := 0 to index
        invariant itr == nodes[i]
      {
        itr := itr.m_next;
      }
      return Some(itr.m_value);
    }

    method Size() returns (n: nat)
      requires Valid()
      ensures n == |Contents()|
    {
      n := m_size;
    }
  }
}
