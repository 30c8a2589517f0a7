/** Threads over whole runs: whatever is interleaved, a resumed thread finds the state it left. */
module SwitchRuns {
  import opened Memory
  import opened SwitchThread

  const THREAD_STACK_SIZE: nat := 0x4000

  datatype Stack = Stack(lo: nat, hi: nat)

  /** The processor, memory, the saved stack pointers and the stacks of all threads, and who runs. */
  datatype System = System(cpu: Cpu, mem: Mem, tops: map<nat, nat>, stacks: map<nat, Stack>, current: nat)

  datatype Event =
    | Execute
    | SwitchTo(thread: nat)
    | Create(thread: nat, stack: Stack, entry: nat)

  predicate StacksApart(a: Stack, b: Stack) {
    a.hi <= b.lo || b.hi <= a.lo
  }

  ghost predicate WellFormed(s: System) {
    && s.tops.Keys == s.stacks.Keys && s.current in s.stacks
    && (forall t :: t in s.stacks ==> s.stacks[t].hi <= |s.mem|)
    && (forall t, u :: t in s.stacks && u in s.stacks && t != u ==> StacksApart(s.stacks[t], s.stacks[u]))
  }

  /** The processor state a new thread starts in: at its function, with an empty stack. */
  function StartState(stack: Stack, entry: nat): Cpu
    requires stack.hi >= FRAME_SIZE
  {
    Cpu(Registers(0, 0, 0, 0, stack.hi - FRAME_SIZE, 0, 0, 0, 0, 0, 0, 0, 0, 0, 0), stack.hi, entry)
  }

  lemma StartIs(stack: Stack, entry: nat)
    requires stack.hi >= FRAME_SIZE
    ensures StartState(stack, entry) ==
              Cpu(Registers(0, 0, 0, 0, stack.hi - 0x80, 0, 0, 0, 0, 0, 0, 0, 0, 0, 0), stack.hi, entry)
  {
  }

  ghost predicate SameBytes(m: Mem, m': Mem, stack: Stack) {
    |m'| == |m| && forall k :: stack.lo <= k < stack.hi && k < |m| ==> m'[k] == m[k]
  }

  /** The current thread's stack has room for one frame below the return address. */
  predicate HasRoom(s: System)
    requires s.current in s.stacks
  {
    var stack := s.stacks[s.current];
    stack.lo + FRAME_SIZE <= s.cpu.rsp + 8 <= stack.hi
  }

  ghost predicate Step(s: System, e: Event, s': System)
    requires WellFormed(s)
  {
    match e
    case Execute =>
      // Running code may do anything to the registers and to memory other than the stacks of other threads.
      && s'.tops == s.tops && s'.stacks == s.stacks && s'.current == s.current && |s'.mem| == |s.mem|
      && forall t :: t in s.stacks && t != s.current ==> SameBytes(s.mem, s'.mem, s.stacks[t])
    case SwitchTo(t) =>
      && t in s.stacks && HasRoom(s) && s.cpu.rsp + 8 <= |s.mem|
      && s'.stacks == s.stacks && s'.current == t
      && s'.tops.Keys == s.tops.Keys && (forall u :: u in s.tops && u != s.current ==> s'.tops[u] == s.tops[u])
      && Switched(s.cpu, s.mem, s.tops[t], t == s.current, s'.cpu, s'.mem, s'.tops[s.current])
    case Create(t, stack, entry) =>
      && t !in s.stacks && stack.hi == stack.lo + THREAD_STACK_SIZE && stack.hi <= |s.mem|
      && (forall u :: u in s.stacks ==> StacksApart(s.stacks[u], stack))
      && s'.cpu == s.cpu && s'.current == s.current && s'.stacks == s.stacks[t := stack]
      && s'.tops == s.tops[t := stack.hi - FRAME_SIZE] && |s'.mem| == |s.mem|
      && (forall k | 0 <= k < |s.mem| && !(stack.lo <= k < stack.hi) :: s'.mem[k] == s.mem[k])
      && Saved(s'.mem, stack.hi - FRAME_SIZE, StartState(stack, entry))
  }

  ghost predicate Run(trace: seq<System>, events: seq<Event>) {
    && |trace| == |events| + 1
    && (forall k :: 0 <= k < |trace| ==> WellFormed(trace[k]))
    && (forall k :: 0 <= k < |events| ==> Step(trace[k], events[k], trace[k + 1]))
  }

  /** Thread t is suspended and its stack holds what is needed to resume as c. */
  ghost predicate Suspended(s: System, t: nat, c: Cpu) {
    && t in s.stacks && t in s.tops && t != s.current
    && s.stacks[t].lo <= s.tops[t] && s.tops[t] + FRAME_SIZE <= s.stacks[t].hi
    && Saved(s.mem, s.tops[t], c)
  }

  /** A step that does not resume a suspended thread leaves it suspended as it was. */
  lemma StepKeepsSuspended(s: System, e: Event, s': System, t: nat, c: Cpu)
    requires WellFormed(s) && WellFormed(s') && Step(s, e, s') && Suspended(s, t, c) && e != SwitchTo(t)
    ensures Suspended(s', t, c) && s'.tops[t] == s.tops[t]
  {
    hide Saved;
    match e
    case Execute =>
      assert SameBytes(s.mem, s'.mem, s.stacks[t]);
      SavedElsewhere(s.mem, s'.mem, s.tops[t], c);
    case SwitchTo(u) =>
      assert StacksApart(s.stacks[t], s.stacks[s.current]);
      SavedElsewhere(s.mem, s'.mem, s.tops[t], c);
    case Create(u, stack, entry) =>
      assert StacksApart(s.stacks[t], stack);
      SavedElsewhere(s.mem, s'.mem, s.tops[t], c);
  }

  lemma {:induction false} StaysSuspended(trace: seq<System>, events: seq<Event>, t: nat, c: Cpu, i: nat, j: nat)
    requires Run(trace, events) && i <= j < |trace| && Suspended(trace[i], t, c)
    requires forall k :: i <= k < j ==> events[k] != SwitchTo(t)
    ensures Suspended(trace[j], t, c)
    decreases j
  {
    hide Step, Suspended, WellFormed;
    if i < j {
      StaysSuspended(trace, events, t, c, i, j - 1);
      StepKeepsSuspended(trace[j - 1], events[j - 1], trace[j], t, c);
    }
  }

  /** Switching away suspends a thread as the caller of the switch. */
  lemma SwitchSuspends(s: System, u: nat, s': System)
    requires WellFormed(s) && WellFormed(s') && Step(s, SwitchTo(u), s') && u != s.current
    ensures s.cpu.rsp + 8 <= |s.mem| && Suspended(s', s.current, CallerOf(s.cpu, s.mem))
  {
    hide Saved;
  }

  lemma CreateSuspends(s: System, t: nat, stack: Stack, entry: nat, s': System)
    requires WellFormed(s) && WellFormed(s') && Step(s, Create(t, stack, entry), s')
    ensures stack.hi >= FRAME_SIZE && stack.hi == stack.lo + 0x4000 && Suspended(s', t, StartState(stack, entry))
  {
    hide Saved;
  }

  lemma {:induction false} WordsUnique(m: Mem, sp: nat, w: WordList, w': WordList)
    requires Words(m, sp, w) && Words(m, sp, w') && w.Length() == w'.Length()
    ensures w == w'
    decreases w
  {
    if w.Word? {
      WordsUnique(m, sp + 8, w.above, w'.above);
    }
  }

  /** A frame determines the state it resumes. */
  lemma SavedUnique(m: Mem, top: nat, c: Cpu, c': Cpu)
    requires Saved(m, top, c) && Saved(m, top, c')
    ensures c == c'
  {
    SavedLength(c);
    SavedLength(c');
    WordsUnique(m, top, SavedWords(c), SavedWords(c'));
  }

  /** Switching to a suspended thread resumes it. */
  lemma SwitchResumes(s: System, t: nat, s': System, c: Cpu)
    requires WellFormed(s) && WellFormed(s') && Step(s, SwitchTo(t), s') && Suspended(s, t, c)
    ensures s'.cpu == c && s'.current == t
  {
    hide Saved;
    assert StacksApart(s.stacks[t], s.stacks[s.current]);
    SavedElsewhere(s.mem, s'.mem, s.tops[t], c);
    SavedUnique(s'.mem, s.tops[t], c, s'.cpu);
  }

  /**
   Context preservation over every run: a thread that switched away and is next switched to later continues with
   exactly the registers, stack pointer and return address it had.
  */
  lemma ResumedAsLeft(trace: seq<System>, events: seq<Event>, t: nat, i: nat, j: nat)
    requires Run(trace, events) && i < j < |events|
    requires trace[i].current == t && events[i].SwitchTo? && events[i].thread != t && events[j] == SwitchTo(t)
    requires forall k :: i < k < j ==> events[k] != SwitchTo(t)
    ensures trace[i].cpu.rsp + 8 <= |trace[i].mem|
    ensures trace[j + 1].current == t && trace[j + 1].cpu.regs == trace[i].cpu.regs
    ensures trace[j + 1].cpu.rsp == trace[i].cpu.rsp + 8
    ensures trace[j + 1].cpu.rip == LoadWord(trace[i].mem, trace[i].cpu.rsp)
  {
    hide Step, Suspended, WellFormed;
    SwitchSuspends(trace[i], events[i].thread, trace[i + 1]);
    var c := CallerOf(trace[i].cpu, trace[i].mem);
    StaysSuspended(trace, events, t, c, i + 1, j);
    SwitchResumes(trace[j], t, trace[j + 1], c);
  }

  /** A new thread first runs at its function, with the stack pointer at the top of its stack. */
  lemma StartsAtFunction(trace: seq<System>, events: seq<Event>, i: nat, j: nat)
    requires Run(trace, events) && i < j < |events| && events[i].Create? && events[j] == SwitchTo(events[i].thread)
    requires forall k :: i < k < j ==> events[k] != SwitchTo(events[i].thread)
    ensures trace[j + 1].current == events[i].thread
    ensures trace[j + 1].cpu.rip == events[i].entry && trace[j + 1].cpu.rsp == events[i].stack.hi
    ensures events[i].stack.hi == events[i].stack.lo + 0x4000
    ensures trace[j + 1].cpu.regs ==
              Registers(0, 0, 0, 0, events[i].stack.hi - 0x80, 0, 0, 0, 0, 0, 0, 0, 0, 0, 0)
  {
    hide Step, Suspended, WellFormed;
    var t, stack, entry := events[i].thread, events[i].stack, events[i].entry;
    CreateSuspends(trace[i], t, stack, entry, trace[i + 1]);
    assert stack.hi >= FRAME_SIZE;
    StaysSuspended(trace, events, t, StartState(stack, entry), i + 1, j);
    SwitchResumes(trace[j], t, trace[j + 1], StartState(stack, entry));
  }

  /** Switching to oneself only returns: the frame below the stack pointer is all that changes. */
  lemma SelfSwitchIsIdentity(s: System, s': System)
    requires WellFormed(s) && WellFormed(s') && Step(s, SwitchTo(s.current), s')
    ensures s.cpu.rsp + 8 <= |s.mem| && s'.cpu.regs == s.cpu.regs && s'.cpu.rsp == s.cpu.rsp + 8
    ensures s'.cpu.rip == LoadWord(s.mem, s.cpu.rsp) && s'.current == s.current
    ensures forall k | 0 <= k < |s.mem| && !(s.cpu.rsp - 0x78 <= k < s.cpu.rsp) :: s'.mem[k] == s.mem[k]
  {
  }
}
