/** Lobo's scheduler: the thread list, thread creation, and the search-and-switch of Schedule. */
module KernelScheduler {
  import opened Outcomes
  import opened Memory
  import opened KernelMemory
  import opened LinkedLists
  import opened SwitchThread
  import opened SwitchRuns
  import opened Scheduling

  const TCB_SIZE: nat := 40

  class Scheduler {
    var schedulingEnabled: bool
    const idleThread: ThreadControlBlock
    var currentThread: ThreadControlBlock
    const threads: SingleLinkedList<ThreadControlBlock>
    var currentThreadIndex: nat
    var next_tid: nat
    var currentTaskID: nat
    const cpu: Processor

    /** The list position of the current thread, every thread's stack, and what each suspended thread resumes as. */
    ghost var position: nat
    ghost var stacks: map<ThreadControlBlock, Stack>
    ghost var saved: map<ThreadControlBlock, Cpu>

    constructor (cpu: Processor)
      ensures this.cpu == cpu && threads.Valid() && threads.Contents() == [] && !schedulingEnabled
      ensures currentThreadIndex == 0 && next_tid == 1 && currentTaskID == 0 && idleThread.state == Ready
      ensures fresh(threads) && fresh(idleThread)
    {
      this.cpu := cpu;
      idleThread := new ThreadControlBlock("k/idle");
      currentThread := idleThread;
      threads := new SingleLinkedList<ThreadControlBlock>();
      schedulingEnabled, currentThreadIndex, next_tid, currentTaskID := false, 0, 1, 0;
      position, stacks, saved := 0, map[], map[];
    }

    ghost function List(): seq<ThreadControlBlock>
      reads threads, threads.nodes
    {
      threads.Contents()
    }

    ghost predicate Valid()
      reads this, threads, threads.nodes
    {
      threads.Valid() && ListOk(List(), position, currentThreadIndex, currentThread)
    }

    /** The scheduling state as a value. */
    ghost function State(): (s: Sched)
      requires Valid()
      reads this, threads, threads.nodes, List()`state
      ensures Scheduling.Valid(s) && |s.states| == |List()|
    {
      Sched(StatesOf(List()), currentThreadIndex, position, schedulingEnabled)
    }

    /** Threads have stacks of their own, and the stack of each one not running holds its saved frame. */
    ghost predicate StacksValid()
      reads this, threads, threads.nodes, List()`stack_top, cpu`mem
    {
      StacksOk(List(), currentThread, cpu.mem, TopsOf(List()), stacks, saved)
    }

    /** The current thread is about to enter switch_thread, with room for a frame on its stack. */
    ghost predicate CanSwitch()
      reads this, cpu
    {
      && currentThread in stacks && RegistersOk(cpu.regs)
      && stacks[currentThread].lo + FRAME_SIZE <= cpu.rsp + 8 <= stacks[currentThread].hi
    }

    /**
     The processor, memory, saved stack pointers and stacks of all threads, named by their places in the list: the
     state that runs of switches are about.
    */
    ghost function Threads(): System
      requires Valid() && StacksValid()
      reads this, threads, threads.nodes, List()`stack_top, cpu
    {
      SystemOf(cpu.State(), cpu.mem, List(), TopsOf(List()), stacks, position)
    }

    /**
     The running code becomes the idle thread: a switch to itself records its stack, then it joins the list, if the
     heap has room for the node.
    */
    method Init(heap: Heap, pmm: Pmm, ghost stack: Stack) returns (r: Outcome<()>)
      requires threads.Valid() && List() == [] && currentThreadIndex == 0 && idleThread.state == Ready
      requires RegistersOk(cpu.regs) && stack.lo + FRAME_SIZE <= cpu.rsp + 8 <= stack.hi <= |cpu.mem|
      requires pmm.bitmap.Valid() && heap.earlyAllocBase + 8 + NODE_SIZE < TWO64
      modifies this, cpu, idleThread`stack_top, threads, heap`earlyAllocBase, pmm.bitmap.m_ptr
      ensures r.Halted? <==> old(threads.NodeTaken(heap, pmm)).Halted?
      ensures r.Done? ==>
                && Valid() && StacksValid() && List() == [idleThread] && stacks == map[idleThread := stack]
                && State() == Sched([Ready], 0, 0, old(schedulingEnabled)) && next_tid == old(next_tid)
      ensures cpu.State() == Cpu(old(cpu.regs), old(cpu.rsp) + 8, LoadWord(old(cpu.mem), old(cpu.rsp)))
      ensures idleThread.stack_top == old(cpu.rsp) + 8 - FRAME_SIZE && idleThread.taskID == old(idleThread.taskID)
    {
      hide Saved, Switched, SingleLinkedList.Valid, SingleLinkedList.Contents, Scheduler.Valid, StacksValid, State, CallerOf,
        RegistersOk;
      ghost var c, m, top := cpu.State(), cpu.mem, idleThread.stack_top;
      CallerIs(c, m);
      currentThread := idleThread;
      currentTaskID := 0;
      SwitchThread(idleThread, CallerOf(c, m));
      SwitchedFacts(c, m, top, true, cpu.State(), cpu.mem, idleThread.stack_top);
      r := AddIdle(heap, pmm, stack);
    }

    method AddIdle(heap: Heap, pmm: Pmm, ghost stack: Stack) returns (r: Outcome<()>)
      requires threads.Valid() && List() == [] && currentThreadIndex == 0 && idleThread.state == Ready
      requires currentThread == idleThread && stack.hi <= |cpu.mem|
      requires pmm.bitmap.Valid() && heap.earlyAllocBase + 8 + NODE_SIZE < TWO64
      modifies this`position, this`stacks, this`saved, threads, heap`earlyAllocBase, pmm.bitmap.m_ptr
      ensures r.Halted? <==> old(threads.NodeTaken(heap, pmm)).Halted?
      ensures r.Done? ==>
                && Valid() && StacksValid() && List() == [idleThread] && stacks == map[idleThread := stack]
                && State() == Sched([Ready], 0, 0, schedulingEnabled)
    {
      hide SingleLinkedList.Valid, SingleLinkedList.Contents, StacksOk, ListOk, StatesOf, TopsOf;
      var _ :- threads.PushBack(idleThread, heap, pmm);
      position := 0;
      stacks := map[idleThread := stack];
      saved := map[];
      OneThread(idleThread, cpu.mem, stack, saved);
      return Done(());
    }

    method EnableScheduling()
      modifies this`schedulingEnabled
      ensures schedulingEnabled
    {
      schedulingEnabled := true;
    }

    method DisableScheduling()
      modifies this`schedulingEnabled
      ensures !schedulingEnabled
    {
      schedulingEnabled := false;
    }

    /** Makes newThread current and switches the processor to it. */
    method SwitchThread(newThread: ThreadControlBlock, ghost c: Cpu)
      requires RegistersOk(cpu.regs) && FRAME_SIZE <= cpu.rsp + 8 <= |cpu.mem|
      requires newThread != currentThread ==>
                 && Saved(cpu.mem, newThread.stack_top, c)
                 && (newThread.stack_top + FRAME_SIZE <= cpu.rsp + 8 - FRAME_SIZE || cpu.rsp + 8 <= newThread.stack_top)
      modifies this`currentThread, cpu, currentThread`stack_top
      ensures currentThread == newThread
      ensures Switched(old(cpu.State()), old(cpu.mem), old(newThread.stack_top), newThread == old(currentThread),
                       cpu.State(), cpu.mem, old(currentThread).stack_top)
      ensures cpu.State() == if newThread == old(currentThread) then CallerOf(old(cpu.State()), old(cpu.mem)) else c
    {
      var curThread := currentThread;
      currentThread := newThread;
      cpu.Switch(newThread, curThread, c);
    }

    /**
     The search loop of Schedule: the nearest ready thread ahead of the index, or nothing after 501 candidates.
    */
    method FindCandidate(ghost s: Sched, ghost list: seq<ThreadControlBlock>) returns (r: Option<ThreadControlBlock>)
      requires threads.Valid() && threads.Contents() == list && Describes(s, list) && s.index == currentThreadIndex
      modifies this`currentThreadIndex
      ensures currentThreadIndex < |list| && Describes(s, list)
      ensures r.Some? ==>
                ReadyInReach(s) && NextReady(s, currentThreadIndex) && r.value == list[currentThreadIndex]
      ensures r.None? ==> !ReadyInReach(s) && currentThreadIndex == Advance(s.index, MAX_TRIES + 1, |list|)
      ensures r.Some? <==> exists t :: 0 <= t < |list| && list[t].state == Ready && Distance(s.index, t, |list|) <= 501
    {
      hide Advance, Distance, NextReady, ReadyInReach, NoneWithin, SingleLinkedList.Valid, SingleLinkedList.Contents;
      var tries := 0;
      SearchStarts(s);
      InReach(s, list);
      while true
        invariant tries <= MAX_TRIES && currentThreadIndex < |list|
        invariant threads.Valid() && threads.Contents() == list && Describes(s, list)
        invariant currentThreadIndex == Advance(s.index, tries, |list|)
        invariant NoneWithin(s, tries)
        decreases MAX_TRIES - tries
      {
        AdvanceByOne(s.index, tries, |list|);
        var size := threads.Size();
        currentThreadIndex := currentThreadIndex + 1;
        if currentThreadIndex >= size { currentThreadIndex := 0; }
        var newThread := threads.At(currentThreadIndex);
        StepFurther(s, tries, currentThreadIndex);
        if newThread.value.state != Ready {
          tries := tries + 1;
          if tries > MAX_TRIES { return None; }
          continue;
        }
        return newThread;
      }
    }

    /** FindCandidate in terms of the scheduling state. */
    method Search() returns (r: Option<ThreadControlBlock>)
      requires Valid() && schedulingEnabled && StacksValid() && CanSwitch()
      modifies this`currentThreadIndex
      ensures StacksValid() && CanSwitch() && List() == old(List())
      ensures Valid() && State() == old(State()).(index := currentThreadIndex) && Threads() == old(Threads())
      ensures r.Some? ==>
                ReadyInReach(old(State())) && NextReady(old(State()), currentThreadIndex) && r.value == List()[currentThreadIndex]
      ensures r.None? ==>
                !ReadyInReach(old(State())) && currentThreadIndex == Advance(old(currentThreadIndex), MAX_TRIES + 1, |List()|)
    {
      hide ReadyInReach, NextReady, SingleLinkedList.Valid, SingleLinkedList.Contents, Advance, SystemOf;
      ghost var s, list := State(), List();
      r := FindCandidate(s, list);
      assert StatesOf(list) == s.states;
    }

    /** The critical section of Schedule: two states change and the processor switches. */
    method SwitchTo(newThread: ThreadControlBlock)
      requires Valid() && StacksValid() && CanSwitch() && newThread == List()[currentThreadIndex]
      modifies this`currentThread, this`position, this`saved, cpu, List()
      ensures Valid() && StacksValid() && List() == old(List()) && currentThread == newThread
      ensures State() == Picked(old(State()), currentThreadIndex)
      ensures newThread != old(currentThread) ==> newThread in old(saved)
      ensures cpu.State() == if newThread == old(currentThread)
                             then Cpu(old(cpu.regs), old(cpu.rsp) + 8, LoadWord(old(cpu.mem), old(cpu.rsp)))
                             else old(saved)[newThread]
      ensures saved == old(saved)[old(currentThread) :=
                Cpu(old(cpu.regs), old(cpu.rsp) + 8, LoadWord(old(cpu.mem), old(cpu.rsp)))]
      ensures WellFormed(old(Threads())) && SwitchRuns.Step(old(Threads()), SwitchRuns.SwitchTo(position), Threads())
      ensures position == currentThreadIndex && stacks == old(stacks)
    {
      hide StacksOk, IsSaved, TopsOf, StatesOf, SingleLinkedList.Valid, SingleLinkedList.Contents, RegistersOk, SystemOf,
        SwitchRuns.Step, WellFormed, CallerOf;
      RoomBelow();
      CallerIs(cpu.State(), cpu.mem);
      SetStates(newThread);
      SwitchStacks(newThread);
      position := currentThreadIndex;
    }

    method SetStates(newThread: ThreadControlBlock)
      requires Valid() && newThread == List()[currentThreadIndex]
      modifies currentThread`state, newThread`state
      ensures Valid() && List() == old(List()) && TopsOf(List()) == old(TopsOf(List()))
      ensures StatesOf(List()) == old(StatesOf(List()))[position := Ready][currentThreadIndex := Running]
    {
      hide SingleLinkedList.Valid, SingleLinkedList.Contents;
      currentThread.state := Ready;
      newThread.state := Running;
    }

    /** The processor switches; every thread but the new one is then suspended. */
    method SwitchStacks(newThread: ThreadControlBlock)
      requires Valid() && newThread == List()[currentThreadIndex] && StacksValid() && CanSwitch()
      modifies this`currentThread, this`saved, cpu, currentThread`stack_top
      ensures StacksValid() && currentThread == newThread && threads.Valid()
      ensures List() == old(List()) && StatesOf(List()) == old(StatesOf(List()))
      ensures newThread != old(currentThread) ==> newThread in old(saved)
      ensures cpu.State() == if newThread == old(currentThread) then CallerOf(old(cpu.State()), old(cpu.mem))
                             else old(saved)[newThread]
      ensures saved == old(saved)[old(currentThread) := CallerOf(old(cpu.State()), old(cpu.mem))]
      ensures WellFormed(old(Threads()))
      ensures SwitchRuns.Step(old(Threads()), SwitchRuns.SwitchTo(currentThreadIndex),
                              SystemOf(cpu.State(), cpu.mem, List(), TopsOf(List()), stacks, currentThreadIndex))
    {
      hide Saved, Switched, SingleLinkedList.Valid, SingleLinkedList.Contents, RegistersOk, StacksOk, StacksApart, TopsOf,
        SystemOf, SwitchRuns.Step, WellFormed, CallerOf;
      ghost var list, oldThread, m, c := List(), currentThread, cpu.mem, cpu.State();
      ghost var tops := TopsOf(list);
      SuspendedThread(list, oldThread, m, tops, stacks, saved, position, currentThreadIndex);
      ghost var target := if newThread == oldThread then CallerOf(c, m) else saved[newThread];
      SwitchThread(newThread, target);
      assert TopsOf(list) == tops[position := oldThread.stack_top];
      SwitchedFacts(c, m, tops[currentThreadIndex], newThread == oldThread, cpu.State(), cpu.mem, oldThread.stack_top);
      StacksAfterSwitch(list, m, cpu.mem, tops, stacks, saved, position, currentThreadIndex, oldThread.stack_top, c);
      SwitchSystem(list, m, cpu.mem, tops, stacks, saved, position, currentThreadIndex, oldThread.stack_top, c,
                   cpu.State());
      saved := saved[oldThread := CallerOf(c, m)];
    }

    /**
     One call: the state changes as the scheduling relation says, and when a thread was picked the processor
     continues as that thread, exactly as it was saved.
    */
    method Schedule()
      requires Valid() && StacksValid() && CanSwitch()
      modifies this`currentThread, this`currentThreadIndex, this`position, this`saved, cpu, List()
      ensures Valid() && StacksValid() && List() == old(List()) && stacks == old(stacks)
      ensures Scheduled(old(State()), State())
      ensures WellFormed(old(Threads()))
      ensures if schedulingEnabled && ReadyInReach(old(State()))
              then SwitchRuns.Step(old(Threads()), SwitchRuns.SwitchTo(position), Threads())
              else Threads() == old(Threads())
      ensures !schedulingEnabled || !ReadyInReach(old(State())) ==>
                cpu.State() == old(cpu.State()) && cpu.mem == old(cpu.mem) && saved == old(saved)
      ensures schedulingEnabled && ReadyInReach(old(State())) ==>
                && (currentThread != old(currentThread) ==> currentThread in old(saved))
                && cpu.State() == (if currentThread == old(currentThread)
                                   then Cpu(old(cpu.regs), old(cpu.rsp) + 8, LoadWord(old(cpu.mem), old(cpu.rsp)))
                                   else old(saved)[currentThread])
                && saved == old(saved)[old(currentThread) :=
                     Cpu(old(cpu.regs), old(cpu.rsp) + 8, LoadWord(old(cpu.mem), old(cpu.rsp)))]
    {
      hide *;
      ghost var s := State();
      Unchanged(s);
      ThreadsWellFormed();
      if !schedulingEnabled { return; }
      var found := Search();
      if found.None? {
        GivenUp(s, currentThreadIndex);
        return;
      }
      PickedIsScheduled(s, currentThreadIndex);
      SwitchTo(found.value);
    }

    /**
     A new ready thread at the end of the list, on a stack of its own that was never handed out before, saved so
     that its first switch enters the function with the stack empty.
    */
    method CreateThread(heap: Heap, pmm: Pmm, name: string, entry: nat) returns (r: Outcome<ThreadControlBlock>)
      requires Valid() && StacksValid() && pmm.bitmap.Valid() && entry < TWO64
      requires KERNEL_VMB <= heap.earlyAllocBase && heap.earlyAllocLimit + 0x8000 < TWO64
      requires heap.earlyAllocBase <= heap.earlyAllocLimit && heap.earlyAllocLimit - KERNEL_VMB <= |cpu.mem|
      requires forall t :: t in List() ==> OutsideHeap(stacks[t], heap.earlyAllocBase, heap.earlyAllocLimit)
      modifies this`next_tid, this`stacks, this`saved, cpu`mem, heap`earlyAllocBase, pmm.bitmap.m_ptr, threads, threads.nodes
      ensures r.Done? ==>
                && Valid() && StacksValid() && fresh(r.value) && List() == old(List()) + [r.value]
                && State() == old(State()).(states := old(State()).states + [Ready])
                && r.value.threadName == name && r.value.threadID == old(next_tid) && next_tid == old(next_tid) + 1
                && r.value.taskID == currentTaskID
                && stacks.Keys == old(stacks).Keys + {r.value}
                && NewStack(stacks[r.value], old(heap.earlyAllocBase), heap.earlyAllocBase)
                && r.value.stack_top == stacks[r.value].hi - 0x80
                && saved.Keys == old(saved).Keys + {r.value}
                && (forall t :: t in old(saved) && t != r.value ==> saved[t] == old(saved)[t])
                && saved[r.value].rip == entry && saved[r.value].rsp == stacks[r.value].hi
                && stacks[r.value].hi == stacks[r.value].lo + 0x4000 && stacks[r.value].hi >= 0x80
                && saved[r.value].regs ==
                     Registers(0, 0, 0, 0, stacks[r.value].hi - 0x80, 0, 0, 0, 0, 0, 0, 0, 0, 0, 0)
                && WellFormed(old(Threads()))
                && SwitchRuns.Step(old(Threads()), SwitchRuns.Create(|old(List())|, stacks[r.value], entry), Threads())
    {
      hide StacksOk, StacksValid, Saved, SingleLinkedList.Valid, SingleLinkedList.Contents, StartState, ListOk, StatesOf,
        TopsOf, StacksApart, NewStack, SystemOf, SwitchRuns.Step, WellFormed, OutsideHeap;
      ghost var list, tops, states, m := List(), TopsOf(List()), StatesOf(List()), cpu.mem;
      StacksKnown(heap.earlyAllocBase, heap.earlyAllocLimit);
      ThreadsWellFormed();
      var t, stack := ForgeThread(heap, pmm, name, entry);
      if t.Halted? { return t; }
      ListUnchanged(list, tops, states);
      StackPlace(stack, old(heap.earlyAllocBase), heap.earlyAllocBase, heap.earlyAllocLimit);
      StacksAfterWrite(list, currentThread, m, cpu.mem, tops, stacks, saved, stack);
      StacksFold();
      CreateSystem(cpu.State(), m, cpu.mem, list, currentThread, tops, stacks, saved, position, t.value, stack, entry);
      ghost var cursor := heap.earlyAllocBase;
      var _ :- AddThread(heap, pmm, t.value, stack, StartState(stack, entry));
      StackStaysNew(stack, old(heap.earlyAllocBase), cursor, heap.earlyAllocBase);
      StartIs(stack, entry);
      return t;
    }

    lemma StacksKnown(base: nat, limit: nat)
      requires StacksValid() && forall t :: t in List() ==> OutsideHeap(stacks[t], base, limit)
      ensures StacksOk(List(), currentThread, cpu.mem, TopsOf(List()), stacks, saved)
      ensures forall t :: t in List() ==> t in stacks && OutsideHeap(stacks[t], base, limit)
    {
    }

    lemma StacksFold()
      requires StacksOk(List(), currentThread, cpu.mem, TopsOf(List()), stacks, saved)
      ensures StacksValid()
    {
    }

    /** Allocation, the new control block and the forged frame; the list is untouched. */
    method ForgeThread(heap: Heap, pmm: Pmm, name: string, entry: nat)
      returns (r: Outcome<ThreadControlBlock>, ghost stack: Stack)
      requires pmm.bitmap.Valid() && entry < TWO64
      requires KERNEL_VMB <= heap.earlyAllocBase && heap.earlyAllocLimit + 0x8000 < TWO64
      requires heap.earlyAllocBase <= heap.earlyAllocLimit && heap.earlyAllocLimit - KERNEL_VMB <= |cpu.mem|
      modifies this`next_tid, cpu`mem, heap`earlyAllocBase, pmm.bitmap.m_ptr
      ensures r.Done? ==>
                && fresh(r.value) && |cpu.mem| == |old(cpu.mem)|
                && r.value.threadName == name && r.value.threadID == old(next_tid) && next_tid == old(next_tid) + 1
                && r.value.taskID == currentTaskID && r.value.state == Ready
                && NewStack(stack, old(heap.earlyAllocBase), heap.earlyAllocBase) && stack.hi <= |cpu.mem|
                && heap.earlyAllocBase <= heap.earlyAllocLimit
                && r.value.stack_top == stack.hi - FRAME_SIZE
                && Saved(cpu.mem, r.value.stack_top, StartState(stack, entry))
                && StartState(stack, entry) ==
                     Cpu(Registers(0, 0, 0, 0, stack.hi - 0x80, 0, 0, 0, 0, 0, 0, 0, 0, 0, 0), stack.hi, entry)
                && forall k | 0 <= k < |cpu.mem| && !(stack.lo <= k < stack.hi) :: cpu.mem[k] == old(cpu.mem)[k]
    {
      hide Saved, Words, RegistersOk, AlignUp;
      stack := Stack(0, 0);
      var tcb := heap.KmallocAligned(pmm, TCB_SIZE, 8);
      if tcb.Halted? { return Halted(tcb.why), stack; }
      var block := heap.KmallocAligned(pmm, THREAD_STACK_SIZE, 8);
      if block.Halted? { return Halted(block.why), stack; }
      var stackAddr := block.value + THREAD_STACK_SIZE - KERNEL_VMB;
      stack := Stack(block.value - KERNEL_VMB, stackAddr);
      var toCreate := new ThreadControlBlock(name);
      toCreate.stack_top := stackAddr - FRAME_SIZE;
      toCreate.threadID := next_tid;
      next_tid := next_tid + 1;
      toCreate.state := Ready;
      toCreate.taskID := currentTaskID;
      StartFrame(stack, entry);
      cpu.WriteWords(toCreate.stack_top, SavedWords(StartState(Stack(block.value - KERNEL_VMB, stackAddr), entry)));
      StartSaved(cpu.mem, stack, entry);
      return Done(toCreate), stack;
    }

    /** The list grows by a thread that is already suspended. */
    method AddThread(heap: Heap, pmm: Pmm, t: ThreadControlBlock, ghost stack: Stack, ghost c: Cpu)
      returns (r: Outcome<()>)
      requires pmm.bitmap.Valid() && heap.earlyAllocBase + 8 + NODE_SIZE < TWO64
      requires Valid() && StacksValid() && t !in List() && t.state == Ready
      requires stack.lo <= t.stack_top && t.stack_top + FRAME_SIZE <= stack.hi <= |cpu.mem|
      requires Saved(cpu.mem, t.stack_top, c)
      requires forall u :: u in List() ==> u in stacks && StacksApart(stacks[u], stack)
      modifies this`stacks, this`saved, threads, threads.nodes, heap`earlyAllocBase, pmm.bitmap.m_ptr
      ensures r.Done? ==>
                && Valid() && StacksValid() && List() == old(List()) + [t]
                && State() == old(State()).(states := old(State()).states + [Ready])
                && stacks == old(stacks)[t := stack] && saved == old(saved)[t := c]
                && heap.earlyAllocBase >= old(heap.earlyAllocBase)
                && TopsOf(List()) == old(TopsOf(List())) + [t.stack_top]
    {
      hide Saved, SingleLinkedList.Valid, SingleLinkedList.Contents, StacksOk, StacksApart, ListOk, StatesOf, TopsOf;
      ghost var list, tops, states := List(), TopsOf(List()), StatesOf(List());
      ListAppend(list, position, currentThreadIndex, currentThread, t);
      StacksAfterAppend(list, currentThread, cpu.mem, tops, stacks, saved, t, stack, t.stack_top, c);
      var _ :- threads.PushBack(t, heap, pmm);
      ListUnchanged(list, tops, states);
      ListGrown(list, t);
      stacks := stacks[t := stack];
      saved := saved[t := c];
      return Done(());
    }

    lemma RoomBelow()
      requires Valid() && StacksValid() && CanSwitch()
      ensures cpu.rsp + 8 <= |cpu.mem|
    {
    }

    lemma ThreadsWellFormed()
      requires Valid() && StacksValid()
      ensures WellFormed(Threads()) && position < |List()|
    {
      SystemOk(cpu.State(), cpu.mem, List(), TopsOf(List()), stacks, saved, position, currentThreadIndex, currentThread);
    }

    lemma Unchanged(s: Sched)
      requires Valid() && s == State()
      ensures schedulingEnabled == s.enabled && currentThreadIndex == s.index && |List()| == |s.states|
      ensures Scheduling.Valid(s) && (!s.enabled ==> Scheduled(s, s))
    {
    }
  }

  ghost predicate ListOk(list: seq<ThreadControlBlock>, position: nat, index: nat, current: ThreadControlBlock) {
    && index < |list| && position < |list| && list[position] == current
    && forall i, j :: 0 <= i < j < |list| ==> list[i] != list[j]
  }

  lemma ListAppend(list: seq<ThreadControlBlock>, position: nat, index: nat, current: ThreadControlBlock,
                   t: ThreadControlBlock)
    requires ListOk(list, position, index, current) && t !in list
    ensures ListOk(list + [t], position, index, current)
  {
  }

  /** A stack taken from the heap between two positions of its cursor. */
  predicate NewStack(stack: Stack, base: nat, base': nat) {
    stack.hi == stack.lo + THREAD_STACK_SIZE && base <= stack.lo + KERNEL_VMB && stack.hi + KERNEL_VMB <= base'
  }

  /** A stack that lies outside the part of the heap that is still free. */
  predicate OutsideHeap(stack: Stack, base: nat, limit: nat) {
    stack.hi + KERNEL_VMB <= base || limit <= stack.lo + KERNEL_VMB
  }

  lemma StackPlace(stack: Stack, base: nat, base': nat, limit: nat)
    requires NewStack(stack, base, base') && base' <= limit
    ensures stack.hi == stack.lo + THREAD_STACK_SIZE && base <= stack.lo + KERNEL_VMB
    ensures forall s: Stack :: OutsideHeap(s, base, limit) ==> StacksApart(s, stack)
    ensures stack.lo <= stack.hi - FRAME_SIZE && stack.hi - FRAME_SIZE + FRAME_SIZE <= stack.hi
  {
  }

  lemma StackStaysNew(stack: Stack, base: nat, base': nat, base'': nat)
    requires NewStack(stack, base, base') && base' <= base''
    ensures NewStack(stack, base, base'')
  {
  }

  lemma StartFrame(stack: Stack, entry: nat)
    requires stack.hi == stack.lo + THREAD_STACK_SIZE && stack.hi < TWO64 && entry < TWO64
    ensures SavedWords(StartState(stack, entry)).Length() == 16 && WordsOk(SavedWords(StartState(stack, entry)))
  {
    SavedLength(StartState(stack, entry));
    WordsOfRegisters(StartState(stack, entry));
  }

  lemma WordsOfRegisters(c: Cpu)
    requires RegistersOk(c.regs) && c.rip < TWO64
    ensures WordsOk(SavedWords(c))
  {
    var w := SavedWords(c);
    var w4 := w.above.above.above.above;
    var w8 := w4.above.above.above.above;
    var w12 := w8.above.above.above.above;
    assert WordsOk(w12.above.above);
    assert WordsOk(w12);
    assert WordsOk(w8.above.above);
    assert WordsOk(w8);
    assert WordsOk(w4.above.above);
    assert WordsOk(w4);
    assert WordsOk(w.above.above);
  }

  lemma StartSaved(m: Mem, stack: Stack, entry: nat)
    requires stack.hi == stack.lo + THREAD_STACK_SIZE && stack.hi <= |m|
    requires Words(m, stack.hi - FRAME_SIZE, SavedWords(StartState(stack, entry)))
    ensures Saved(m, stack.hi - FRAME_SIZE, StartState(stack, entry))
  {
  }

  /** A suspended thread's frame lies on its own stack and holds what it resumes as. */
  ghost predicate IsSaved(t: ThreadControlBlock, top: nat, m: Mem, stacks: map<ThreadControlBlock, Stack>,
                          saved: map<ThreadControlBlock, Cpu>)
  {
    && t in stacks && t in saved
    && stacks[t].lo <= top && top + FRAME_SIZE <= stacks[t].hi
    && Saved(m, top, saved[t])
  }

  /** The stacks of a list of threads, given their saved stack pointers. */
  ghost predicate StacksOk(list: seq<ThreadControlBlock>, current: ThreadControlBlock, m: Mem, tops: seq<nat>,
                           stacks: map<ThreadControlBlock, Stack>, saved: map<ThreadControlBlock, Cpu>)
  {
    && |tops| == |list|
    && (forall i :: 0 <= i < |list| ==> list[i] in stacks && stacks[list[i]].hi <= |m|)
    && (forall i, j :: 0 <= i < |list| && 0 <= j < |list| && i != j ==> StacksApart(stacks[list[i]], stacks[list[j]]))
    && (forall i :: 0 <= i < |list| && list[i] != current ==> IsSaved(list[i], tops[i], m, stacks, saved))
  }

  ghost function TopsOf(list: seq<ThreadControlBlock>): (s: seq<nat>)
    reads list`stack_top
    ensures |s| == |list| && forall i :: 0 <= i < |list| ==> s[i] == list[i].stack_top
  {
    if list == [] then [] else TopsOf(list[..|list| - 1]) + [list[|list| - 1].stack_top]
  }

  lemma SuspendedThread(list: seq<ThreadControlBlock>, current: ThreadControlBlock, m: Mem, tops: seq<nat>,
                        stacks: map<ThreadControlBlock, Stack>, saved: map<ThreadControlBlock, Cpu>, p: nat, k: nat)
    requires StacksOk(list, current, m, tops, stacks, saved) && p < |list| && k < |list| && list[p] == current
    ensures |tops| == |list| && current in stacks && stacks[current].hi <= |m|
    ensures list[k] != current ==>
              && IsSaved(list[k], tops[k], m, stacks, saved)
              && StacksApart(stacks[list[k]], stacks[current])
  {
  }

  /** After a switch the old thread is suspended too, and the others still are. */
  lemma StacksAfterSwitch(list: seq<ThreadControlBlock>, m: Mem, m': Mem, tops: seq<nat>,
                          stacks: map<ThreadControlBlock, Stack>, saved: map<ThreadControlBlock, Cpu>, p: nat, k: nat,
                          top: nat, c: Cpu)
    requires p < |list| && k < |list| && StacksOk(list, list[p], m, tops, stacks, saved)
    requires forall i, j :: 0 <= i < j < |list| ==> list[i] != list[j]
    requires list[p] in stacks && stacks[list[p]].lo + FRAME_SIZE <= c.rsp + 8 <= stacks[list[p]].hi
    requires c.rsp + 8 <= |m| && |m'| == |m| && top + FRAME_SIZE == c.rsp + 8 && Saved(m', top, CallerOf(c, m))
    requires forall i | 0 <= i < |m| && !(top <= i < c.rsp) :: m'[i] == m[i]
    ensures StacksOk(list, list[k], m', tops[p := top], stacks, saved[list[p] := CallerOf(c, m)])
  {
    hide Saved;
    var saved' := saved[list[p] := CallerOf(c, m)];
    forall i | 0 <= i < |list| && list[i] != list[k]
      ensures IsSaved(list[i], tops[p := top][i], m', stacks, saved')
    {
      if i != p {
        assert StacksApart(stacks[list[i]], stacks[list[p]]);
        SavedElsewhere(m, m', tops[i], saved[list[i]]);
      }
    }
  }

  /** Writes beyond the stacks of all threads disturb none of them. */
  lemma StacksAfterWrite(list: seq<ThreadControlBlock>, current: ThreadControlBlock, m: Mem, m': Mem, tops: seq<nat>,
                         stacks: map<ThreadControlBlock, Stack>, saved: map<ThreadControlBlock, Cpu>, stack: Stack)
    requires StacksOk(list, current, m, tops, stacks, saved) && |m'| == |m|
    requires forall t :: t in list ==> StacksApart(stacks[t], stack)
    requires forall k | 0 <= k < |m| && !(stack.lo <= k < stack.hi) :: m'[k] == m[k]
    ensures StacksOk(list, current, m', tops, stacks, saved)
    ensures forall t :: t in list ==> t in stacks && StacksApart(stacks[t], stack)
  {
    hide Saved;
    forall i | 0 <= i < |list| && list[i] != current
      ensures IsSaved(list[i], tops[i], m', stacks, saved)
    {
      assert list[i] in list;
      assert StacksApart(stacks[list[i]], stack);
      SavedElsewhere(m, m', tops[i], saved[list[i]]);
    }
  }

  // ----- the threads as a system of switches -----

  ghost function SystemOf(c: Cpu, m: Mem, list: seq<ThreadControlBlock>, tops: seq<nat>,
                          stacks: map<ThreadControlBlock, Stack>, position: nat): System
    requires |tops| == |list| && forall i :: 0 <= i < |list| ==> list[i] in stacks
  {
    System(c, m, Numbered(tops), Numbered(StacksOf(list, stacks)), position)
  }

  /** The elements of a sequence by their places. */
  ghost function Numbered<T>(s: seq<T>): (r: map<nat, T>)
    ensures forall i: nat :: i in r <==> i < |s|
    ensures forall i: nat :: i < |s| ==> r[i] == s[i]
  {
    map i: nat | i < |s| :: s[i]
  }

  ghost function StacksOf(list: seq<ThreadControlBlock>, stacks: map<ThreadControlBlock, Stack>): (s: seq<Stack>)
    requires forall i :: 0 <= i < |list| ==> list[i] in stacks
    ensures |s| == |list| && forall i :: 0 <= i < |list| ==> s[i] == stacks[list[i]]
  {
    seq(|list|, i requires 0 <= i < |list| => stacks[list[i]])
  }

  lemma NumberedAppend<T>(s: seq<T>, x: T)
    ensures Numbered(s + [x]) == Numbered(s)[|s| := x]
  {
  }

  lemma SystemOk(c: Cpu, m: Mem, list: seq<ThreadControlBlock>, tops: seq<nat>, stacks: map<ThreadControlBlock, Stack>,
                 saved: map<ThreadControlBlock, Cpu>, position: nat, index: nat, current: ThreadControlBlock)
    requires StacksOk(list, current, m, tops, stacks, saved) && ListOk(list, position, index, current)
    ensures WellFormed(SystemOf(c, m, list, tops, stacks, position))
  {
    hide IsSaved;
    var s := SystemOf(c, m, list, tops, stacks, position);
    assert s.tops.Keys == s.stacks.Keys;
  }

  /** The switch of the processor is a step of the system. */
  lemma SwitchSystem(list: seq<ThreadControlBlock>, m: Mem, m': Mem, tops: seq<nat>,
                     stacks: map<ThreadControlBlock, Stack>, saved: map<ThreadControlBlock, Cpu>, p: nat, k: nat,
                     top: nat, c: Cpu, c': Cpu)
    requires p < |list| && k < |list| && StacksOk(list, list[p], m, tops, stacks, saved)
    requires forall i, j :: 0 <= i < j < |list| ==> list[i] != list[j]
    requires list[p] in stacks && stacks[list[p]].lo + FRAME_SIZE <= c.rsp + 8 <= stacks[list[p]].hi
    requires c.rsp + 8 <= |m| && Switched(c, m, tops[k], list[k] == list[p], c', m', top)
    ensures WellFormed(SystemOf(c, m, list, tops, stacks, p))
    ensures SwitchRuns.Step(SystemOf(c, m, list, tops, stacks, p), SwitchRuns.SwitchTo(k),
                            SystemOf(c', m', list, tops[p := top], stacks, k))
  {
    hide Switched, IsSaved;
    SystemOk(c, m, list, tops, stacks, saved, p, k, list[p]);
    var s, s' := SystemOf(c, m, list, tops, stacks, p), SystemOf(c', m', list, tops[p := top], stacks, k);
    assert s'.tops.Keys == s.tops.Keys && s'.stacks == s.stacks;
  }

  /** Forging a thread's frame and listing it is a step of the system. */
  lemma CreateSystem(c: Cpu, m: Mem, m': Mem, list: seq<ThreadControlBlock>, current: ThreadControlBlock, tops: seq<nat>,
                     stacks: map<ThreadControlBlock, Stack>, saved: map<ThreadControlBlock, Cpu>, p: nat,
                     t: ThreadControlBlock, stack: Stack, entry: nat)
    requires StacksOk(list, current, m, tops, stacks, saved) && p < |list| && t !in list
    requires WellFormed(SystemOf(c, m, list, tops, stacks, p))
    requires stack.hi == stack.lo + THREAD_STACK_SIZE && stack.hi <= |m| && |m'| == |m|
    requires forall u :: u in list ==> StacksApart(stacks[u], stack)
    requires forall k | 0 <= k < |m| && !(stack.lo <= k < stack.hi) :: m'[k] == m[k]
    requires Saved(m', stack.hi - FRAME_SIZE, StartState(stack, entry))
    ensures SwitchRuns.Step(SystemOf(c, m, list, tops, stacks, p), SwitchRuns.Create(|list|, stack, entry),
                            SystemOf(c, m', list + [t], tops + [stack.hi - FRAME_SIZE], stacks[t := stack], p))
  {
    hide IsSaved, Saved, StartState, StacksApart, WellFormed, StacksOk;
    SystemGrows(c, m, m', list, current, tops, stacks, saved, p, t, stack);
    StacksOfSystem(c, m, list, tops, stacks, p);
  }

  lemma StacksOfSystem(c: Cpu, m: Mem, list: seq<ThreadControlBlock>, tops: seq<nat>,
                       stacks: map<ThreadControlBlock, Stack>, p: nat)
    requires |tops| == |list| && forall i :: 0 <= i < |list| ==> list[i] in stacks
    ensures var s := SystemOf(c, m, list, tops, stacks, p);
            && |list| !in s.stacks
            && forall i :: i in s.stacks ==> 0 <= i < |list| && list[i] in list && s.stacks[i] == stacks[list[i]]
  {
  }

  lemma SystemGrows(c: Cpu, m: Mem, m': Mem, list: seq<ThreadControlBlock>, current: ThreadControlBlock, tops: seq<nat>,
                    stacks: map<ThreadControlBlock, Stack>, saved: map<ThreadControlBlock, Cpu>, p: nat,
                    t: ThreadControlBlock, stack: Stack)
    requires StacksOk(list, current, m, tops, stacks, saved) && t !in list
    ensures |tops| == |list| && forall i :: 0 <= i < |list| ==> list[i] in stacks
    ensures forall i :: 0 <= i < |list| + 1 ==> (list + [t])[i] in stacks[t := stack]
    ensures var s := SystemOf(c, m, list, tops, stacks, p);
            SystemOf(c, m', list + [t], tops + [stack.hi - FRAME_SIZE], stacks[t := stack], p) ==
              System(c, m', s.tops[|list| := stack.hi - FRAME_SIZE], s.stacks[|list| := stack], p)
    requires stack.hi >= FRAME_SIZE
  {
    hide StacksOk, Numbered, StacksOf;
    StacksListed(list, current, m, tops, stacks, saved);
    StacksOfAppend(list, stacks, t, stack);
    NumberedAppend(StacksOf(list, stacks), stack);
    NumberedAppend(tops, stack.hi - FRAME_SIZE);
  }

  lemma StacksListed(list: seq<ThreadControlBlock>, current: ThreadControlBlock, m: Mem, tops: seq<nat>,
                     stacks: map<ThreadControlBlock, Stack>, saved: map<ThreadControlBlock, Cpu>)
    requires StacksOk(list, current, m, tops, stacks, saved)
    ensures |tops| == |list| && forall i :: 0 <= i < |list| ==> list[i] in stacks
  {
  }

  lemma StacksOfAppend(list: seq<ThreadControlBlock>, stacks: map<ThreadControlBlock, Stack>, t: ThreadControlBlock,
                       stack: Stack)
    requires t !in list && forall i :: 0 <= i < |list| ==> list[i] in stacks
    ensures forall i :: 0 <= i < |list| + 1 ==> (list + [t])[i] in stacks[t := stack]
    ensures StacksOf(list + [t], stacks[t := stack]) == StacksOf(list, stacks) + [stack]
  {
    assert forall i :: 0 <= i < |list| ==> list[i] in list && (list + [t])[i] == list[i];
  }

  /** One more suspended thread. */
  lemma StacksAfterAppend(list: seq<ThreadControlBlock>, current: ThreadControlBlock, m: Mem, tops: seq<nat>,
                          stacks: map<ThreadControlBlock, Stack>, saved: map<ThreadControlBlock, Cpu>,
                          t: ThreadControlBlock, stack: Stack, top: nat, c: Cpu)
    requires StacksOk(list, current, m, tops, stacks, saved) && t !in list
    requires forall u :: u in list ==> StacksApart(stacks[u], stack)
    requires stack.lo <= top && top + FRAME_SIZE <= stack.hi <= |m| && Saved(m, top, c)
    ensures StacksOk(list + [t], current, m, tops + [top], stacks[t := stack], saved[t := c])
  {
    hide Saved;
    var list' := list + [t];
    assert forall i :: 0 <= i < |list| ==> list[i] in list && list'[i] == list[i];
  }

  ghost function StatesOf(list: seq<ThreadControlBlock>): (s: seq<TCBState>)
    reads list`state
    ensures |s| == |list| && forall i :: 0 <= i < |list| ==> s[i] == list[i].state
  {
    if list == [] then [] else StatesOf(list[..|list| - 1]) + [list[|list| - 1].state]
  }

  /** The threads still have the states and stack pointers they had. */
  lemma ListUnchanged(list: seq<ThreadControlBlock>, tops: seq<nat>, states: seq<TCBState>)
    requires |tops| == |list| && |states| == |list|
    requires forall i :: 0 <= i < |list| ==> list[i].stack_top == tops[i] && list[i].state == states[i]
    ensures TopsOf(list) == tops && StatesOf(list) == states
  {
  }

  lemma OneThread(t: ThreadControlBlock, m: Mem, stack: Stack, saved: map<ThreadControlBlock, Cpu>)
    requires stack.hi <= |m|
    ensures [] + [t] == [t] && ListOk([t], 0, 0, t) && StatesOf([t]) == [t.state]
    ensures StacksOk([t], t, m, TopsOf([t]), map[t := stack], saved)
  {
  }

  lemma ListGrown(list: seq<ThreadControlBlock>, t: ThreadControlBlock)
    ensures StatesOf(list + [t]) == StatesOf(list) + [t.state]
    ensures TopsOf(list + [t]) == TopsOf(list) + [t.stack_top]
  {
    assert (list + [t])[..|list|] == list;
  }

  /** The value describes the threads of the list. */
  ghost predicate Describes(s: Sched, list: seq<ThreadControlBlock>)
    reads list`state
  {
    && Scheduling.Valid(s) && |s.states| == |list|
    && forall i :: 0 <= i < |list| ==> list[i].state == s.states[i]
  }

  /** No thread up to a distance is ready. */
  ghost predicate NoneWithin(s: Sched, d: nat)
    requires Scheduling.Valid(s)
  {
    forall u :: 0 <= u < |s.states| && Distance(s.index, u, |s.states|) <= d ==> s.states[u] != Ready
  }

  lemma InReach(s: Sched, list: seq<ThreadControlBlock>)
    requires Describes(s, list)
    ensures ReadyInReach(s) <==>
              exists t :: 0 <= t < |list| && list[t].state == Ready && Distance(s.index, t, |list|) <= 501
  {
  }

  lemma SearchStarts(s: Sched)
    requires Scheduling.Valid(s)
    ensures NoneWithin(s, 0) && Advance(s.index, 0, |s.states|) == s.index
  {
  }

  lemma AdvanceByOne(i: nat, k: nat, n: nat)
    requires i < n
    ensures Advance(i, k + 1, n) == Next(Advance(i, k, n), n) && Advance(i, k + 1, n) < n
  {
    AdvanceSteps(i, k + 1, n);
  }

  /** One more candidate looked at. */
  lemma StepFurther(s: Sched, tries: nat, c: nat)
    requires Scheduling.Valid(s) && c == Advance(s.index, tries + 1, |s.states|) && c < |s.states|
    requires NoneWithin(s, tries) && tries <= MAX_TRIES
    ensures s.states[c] != Ready ==> NoneWithin(s, tries + 1) && (tries == MAX_TRIES ==> !ReadyInReach(s))
    ensures s.states[c] == Ready ==> NextReady(s, c) && ReadyInReach(s)
  {
    var n := |s.states|;
    AdvanceSteps(s.index, tries + 1, n);
    forall u | 0 <= u < n && Distance(s.index, u, n) == tries + 1 ensures u == c {
    }
  }

  lemma PickedIsScheduled(s: Sched, t: nat)
    requires Scheduling.Valid(s) && s.enabled && ReadyInReach(s) && NextReady(s, t)
    ensures Scheduled(s, Picked(s, t)) && Picked(s.(index := t), t) == Picked(s, t)
  {
    forall u: nat | NextReady(s, u) ensures u == t {
      NextReadyUnique(s, t, u);
    }
  }

  lemma GivenUp(s: Sched, i: nat)
    requires Scheduling.Valid(s) && s.enabled && !ReadyInReach(s) && i == Advance(s.index, MAX_TRIES + 1, |s.states|)
    ensures Scheduled(s, s.(index := i))
  {
  }

  lemma SwitchedFacts(c: Cpu, m: Mem, newTop: nat, self: bool, c': Cpu, m': Mem, oldTop: nat)
    requires c.rsp + 8 <= |m| && Switched(c, m, newTop, self, c', m', oldTop)
    ensures |m'| == |m| && oldTop + FRAME_SIZE == c.rsp + 8 && Saved(m', oldTop, CallerOf(c, m))
    ensures forall k | 0 <= k < |m| && !(oldTop <= k < c.rsp) :: m'[k] == m[k]
  {
  }
}
