/**
 Saving and restoring a thread through its stack: switch_thread, the frame it leaves behind, and what a thread
 finds when it is resumed. Stack addresses count from the start of the modelled memory.
*/
module SwitchThread {
  import opened Memory

  /** The fifteen general registers that are saved, in the order they are pushed. */
  datatype Registers = Registers(
    rax: nat, rcx: nat, rdx: nat, rbx: nat, rbp: nat, rsi: nat, rdi: nat,
    r8: nat, r9: nat, r10: nat, r11: nat, r12: nat, r13: nat, r14: nat, r15: nat)

  datatype Cpu = Cpu(regs: Registers, rsp: nat, rip: nat)

  predicate RegistersOk(r: Registers) {
    && r.rax < TWO64 && r.rcx < TWO64 && r.rdx < TWO64 && r.rbx < TWO64 && r.rbp < TWO64 && r.rsi < TWO64
    && r.rdi < TWO64 && r.r8 < TWO64 && r.r9 < TWO64 && r.r10 < TWO64 && r.r11 < TWO64 && r.r12 < TWO64
    && r.r13 < TWO64 && r.r14 < TWO64 && r.r15 < TWO64
  }

  /** The bytes of a saved frame: fifteen registers and the return address. */
  const FRAME_SIZE: nat := 0x80

  /** The words on a stack from the lowest address up. */
  datatype WordList = Bottom | Word(value: nat, above: WordList) {
    function Length(): nat {
      if Bottom? then 0 else 1 + above.Length()
    }
  }

  function SavedWords(c: Cpu): WordList {
    var r := c.regs;
    Word(r.r15, Word(r.r14, Word(r.r13, Word(r.r12, Word(r.r11, Word(r.r10, Word(r.r9, Word(r.r8,
    Word(r.rdi, Word(r.rsi, Word(r.rbp, Word(r.rbx, Word(r.rdx, Word(r.rcx, Word(r.rax, Word(c.rip, Bottom))))))))))))))))
  }

  /** The words lie at sp and upwards. */
  predicate Words(m: Mem, sp: nat, words: WordList)
    decreases words
  {
    match words
    case Bottom => true
    case Word(value, above) => sp + 8 <= |m| && LoadWord(m, sp) == value && Words(m, sp + 8, above)
  }

  /** The stack at top holds what is needed to resume as c. */
  ghost predicate Saved(m: Mem, top: nat, c: Cpu) {
    c.rsp == top + FRAME_SIZE <= |m| && Words(m, top, SavedWords(c))
  }

  /** The state the caller of switch_thread will be in when the call returns; the return address is on the stack. */
  function CallerOf(c: Cpu, m: Mem): Cpu
    requires c.rsp + 8 <= |m|
  {
    Cpu(c.regs, c.rsp + 8, LoadWord(m, c.rsp))
  }

  lemma CallerIs(c: Cpu, m: Mem)
    requires c.rsp + 8 <= |m|
    ensures CallerOf(c, m) == Cpu(c.regs, c.rsp + 8, LoadWord(m, c.rsp))
  {
  }

  /**
   A saved frame word by word: r15 at the top of the stack, then r14 to r8, rdi, rsi, rbp, rbx, rdx, rcx, rax, and
   the return address.
  */
  lemma FrameLayout(m: Mem, top: nat, c: Cpu)
    requires top + 0x80 <= |m|
    ensures Saved(m, top, c) <==>
              && c.rsp == top + 0x80
              && LoadWord(m, top) == c.regs.r15 && LoadWord(m, top + 0x08) == c.regs.r14
              && LoadWord(m, top + 0x10) == c.regs.r13 && LoadWord(m, top + 0x18) == c.regs.r12
              && LoadWord(m, top + 0x20) == c.regs.r11 && LoadWord(m, top + 0x28) == c.regs.r10
              && LoadWord(m, top + 0x30) == c.regs.r9 && LoadWord(m, top + 0x38) == c.regs.r8
              && LoadWord(m, top + 0x40) == c.regs.rdi && LoadWord(m, top + 0x48) == c.regs.rsi
              && LoadWord(m, top + 0x50) == c.regs.rbp && LoadWord(m, top + 0x58) == c.regs.rbx
              && LoadWord(m, top + 0x60) == c.regs.rdx && LoadWord(m, top + 0x68) == c.regs.rcx
              && LoadWord(m, top + 0x70) == c.regs.rax && LoadWord(m, top + 0x78) == c.rip
  {
    hide LoadWord;
    var w := SavedWords(c);
    FourWords(m, top, w);
    FourWords(m, top + 0x20, w.above.above.above.above);
    FourWords(m, top + 0x40, w.above.above.above.above.above.above.above.above);
    FourWords(m, top + 0x60, w.above.above.above.above.above.above.above.above.above.above.above.above);
    assert Words(m, top + 0x80, Bottom);
  }

  lemma FourWords(m: Mem, sp: nat, w: WordList)
    requires sp + 0x20 <= |m|
    requires w.Word? && w.above.Word? && w.above.above.Word? && w.above.above.above.Word?
    ensures Words(m, sp, w) <==>
              && LoadWord(m, sp) == w.value && LoadWord(m, sp + 8) == w.above.value
              && LoadWord(m, sp + 0x10) == w.above.above.value && LoadWord(m, sp + 0x18) == w.above.above.above.value
              && Words(m, sp + 0x20, w.above.above.above.above)
  {
    hide LoadWord;
    assert Words(m, sp + 0x10, w.above.above) <==>
             && LoadWord(m, sp + 0x10) == w.above.above.value && LoadWord(m, sp + 0x18) == w.above.above.above.value
             && Words(m, sp + 0x20, w.above.above.above.above);
  }

  /** What happens to processor, memory and the two stack pointers in one call of switch_thread. */
  ghost predicate Switched(c: Cpu, m: Mem, newTop: nat, self: bool, c': Cpu, m': Mem, oldTop: nat)
    requires c.rsp + 8 <= |m|
  {
    && |m'| == |m| && oldTop + FRAME_SIZE == c.rsp + 8
    && Saved(m', oldTop, CallerOf(c, m))
    && (forall k | 0 <= k < |m| && !(oldTop <= k < c.rsp) :: m'[k] == m[k])
    && (if self then c' == CallerOf(c, m) else Saved(m', newTop, c'))
  }

  predicate WordsOk(words: WordList) {
    words.Word? ==> words.value < TWO64 && WordsOk(words.above)
  }

  lemma {:induction false} WordsFrame(m: Mem, m': Mem, sp: nat, words: WordList)
    requires Words(m, sp, words) && |m'| == |m|
    requires forall k :: sp <= k < sp + 8 * words.Length() && k < |m| ==> m'[k] == m[k]
    ensures Words(m', sp, words)
    decreases words
  {
    if words.Word? {
      LoadWordAgree(m, m', sp);
      WordsFrame(m, m', sp + 8, words.above);
    }
  }

  lemma {:induction false} WordsAbove(m: Mem, sp: nat, a: nat, v: nat, words: WordList)
    requires Words(m, sp, words) && a + 8 <= sp && a + 8 <= |m| && v < TWO64
    ensures Words(StoreWord(m, a, v), sp, words)
    decreases words
  {
    if words.Word? {
      StoreWordEffect(m, a, v);
      WordsAbove(m, sp + 8, a, v, words.above);
    }
  }

  lemma PushWords(m: Mem, sp: nat, v: nat, words: WordList)
    requires Words(m, sp, words) && sp >= 8 && v < TWO64 && sp <= |m|
    ensures Words(StoreWord(m, sp - 8, v), sp - 8, Word(v, words))
  {
    StoreWordEffect(m, sp - 8, v);
    WordsAbove(m, sp, sp - 8, v, words);
  }

  class ThreadControlBlock {
    var stack_top: nat
    var state: TCBState
    var threadName: string
    var threadID: nat
    var taskID: nat

    constructor (name: string)
      ensures stack_top == 0 && state == Ready && threadName == name && threadID == 0 && taskID == 0
    {
      stack_top, state, threadName, threadID, taskID := 0, Ready, name, 0, 0;
    }
  }

  datatype TCBState = Ready | Running | Waiting | Dead

  class Processor {
    var mem: Mem
    var regs: Registers
    var rsp: nat
    var rip: nat

    constructor (mem: Mem, c: Cpu)
      ensures this.mem == mem && State() == c
    {
      this.mem, regs, rsp, rip := mem, c.regs, c.rsp, c.rip;
    }

    function State(): Cpu
      reads this
    {
      Cpu(regs, rsp, rip)
    }

    method Push(v: nat, ghost words: WordList)
      requires Words(mem, rsp, words) && 8 <= rsp <= |mem| && v < TWO64
      modifies this`mem, this`rsp
      ensures rsp == old(rsp) - 8 && Words(mem, rsp, Word(v, words)) && |mem| == |old(mem)|
      ensures forall k | 0 <= k < |mem| && !(rsp <= k < old(rsp)) :: mem[k] == old(mem)[k]
    {
      PushWords(mem, rsp, v, words);
      StoreWordEffect(mem, rsp - 8, v);
      mem := StoreWord(mem, rsp - 8, v);
      rsp := rsp - 8;
    }

    method Pop(ghost words: WordList) returns (v: nat)
      requires Words(mem, rsp, words) && words.Word?
      modifies this`rsp
      ensures v == words.value && rsp == old(rsp) + 8 && Words(mem, rsp, words.above)
    {
      v := LoadWord(mem, rsp);
      rsp := rsp + 8;
    }

    /** Stores a list of words from an address up. */
    method WriteWords(a: nat, words: WordList)
      requires a + 8 * words.Length() <= |mem| && WordsOk(words)
      modifies this`mem
      ensures |mem| == |old(mem)| && Words(mem, a, words)
      ensures forall k | 0 <= k < |mem| && !(a <= k < a + 8 * words.Length()) :: mem[k] == old(mem)[k]
      decreases words
    {
      if words.Word? {
        StoreWordEffect(mem, a, words.value);
        mem := StoreWord(mem, a, words.value);
        ghost var m := mem;
        WriteWords(a + 8, words.above);
        LoadWordAgree(m, mem, a);
      }
    }

    /** The first half of switch_thread. */
    method SaveRegisters()
      requires RegistersOk(regs) && FRAME_SIZE <= rsp + 8 && rsp + 8 <= |mem|
      modifies this`mem, this`rsp
      ensures rsp + FRAME_SIZE == old(rsp) + 8 && |mem| == |old(mem)|
      ensures Saved(mem, rsp, CallerOf(old(State()), old(mem)))
      ensures Saved(mem, rsp, Cpu(old(regs), old(rsp) + 8, LoadWord(old(mem), old(rsp))))
      ensures forall k | 0 <= k < |mem| && !(rsp <= k < old(rsp)) :: mem[k] == old(mem)[k]
    {
      hide Words;
      ReturnAddress(mem, rsp);
      ghost var w := SaveLow(Word(LoadWord(mem, rsp), Bottom));
      w := SaveHigh(w);
      assert w == SavedWords(CallerOf(old(State()), old(mem)));
    }

    method SaveLow(ghost above: WordList) returns (ghost w: WordList)
      requires RegistersOk(regs) && Words(mem, rsp, above) && 56 <= rsp <= |mem|
      modifies this`mem, this`rsp
      ensures rsp == old(rsp) - 56 && |mem| == |old(mem)| && Words(mem, rsp, w)
      ensures w == Word(regs.rdi, Word(regs.rsi, Word(regs.rbp, Word(regs.rbx, Word(regs.rdx, Word(regs.rcx,
                   Word(regs.rax, above)))))))
      ensures forall k | 0 <= k < |mem| && !(rsp <= k < old(rsp)) :: mem[k] == old(mem)[k]
    {
      hide Words;
      w := above;
      Push(regs.rax, w); w := Word(regs.rax, w);
      Push(regs.rcx, w); w := Word(regs.rcx, w);
      Push(regs.rdx, w); w := Word(regs.rdx, w);
      Push(regs.rbx, w); w := Word(regs.rbx, w);
      Push(regs.rbp, w); w := Word(regs.rbp, w);
      Push(regs.rsi, w); w := Word(regs.rsi, w);
      Push(regs.rdi, w); w := Word(regs.rdi, w);
    }

    method SaveHigh(ghost above: WordList) returns (ghost w: WordList)
      requires RegistersOk(regs) && Words(mem, rsp, above) && 64 <= rsp <= |mem|
      modifies this`mem, this`rsp
      ensures rsp == old(rsp) - 64 && |mem| == |old(mem)| && Words(mem, rsp, w)
      ensures w == Word(regs.r15, Word(regs.r14, Word(regs.r13, Word(regs.r12, Word(regs.r11, Word(regs.r10,
                   Word(regs.r9, Word(regs.r8, above))))))))
      ensures forall k | 0 <= k < |mem| && !(rsp <= k < old(rsp)) :: mem[k] == old(mem)[k]
    {
      hide Words;
      w := above;
      Push(regs.r8, w); w := Word(regs.r8, w);
      Push(regs.r9, w); w := Word(regs.r9, w);
      Push(regs.r10, w); w := Word(regs.r10, w);
      Push(regs.r11, w); w := Word(regs.r11, w);
      Push(regs.r12, w); w := Word(regs.r12, w);
      Push(regs.r13, w); w := Word(regs.r13, w);
      Push(regs.r14, w); w := Word(regs.r14, w);
      Push(regs.r15, w); w := Word(regs.r15, w);
    }

    /** The second half: registers come back in the opposite order, then the return. */
    method RestoreRegisters(ghost c: Cpu)
      requires Saved(mem, rsp, c)
      modifies this`regs, this`rsp, this`rip
      ensures State() == c
    {
      hide Words;
      ghost var w := SavedWords(c);
      var r15 := Pop(w); w := w.above;
      var r14 := Pop(w); w := w.above;
      var r13 := Pop(w); w := w.above;
      var r12 := Pop(w); w := w.above;
      var r11 := Pop(w); w := w.above;
      var r10 := Pop(w); w := w.above;
      var r9 := Pop(w); w := w.above;
      var r8 := Pop(w); w := w.above;
      var rdi := Pop(w); w := w.above;
      var rsi := Pop(w); w := w.above;
      var rbp := Pop(w); w := w.above;
      var rbx := Pop(w); w := w.above;
      var rdx := Pop(w); w := w.above;
      var rcx := Pop(w); w := w.above;
      var rax := Pop(w); w := w.above;
      regs := Registers(rax, rcx, rdx, rbx, rbp, rsi, rdi, r8, r9, r10, r11, r12, r13, r14, r15);
      rip := Pop(w);
    }

    /**
     switch_thread: everything the old thread needs goes on its own stack, then the new thread continues from
     what its stack holds. Switching a thread to itself only returns.
    */
    method Switch(newThread: ThreadControlBlock, oldThread: ThreadControlBlock, ghost c: Cpu)
      requires RegistersOk(regs) && FRAME_SIZE <= rsp + 8 && rsp + 8 <= |mem|
      requires newThread != oldThread ==>
                 && Saved(mem, newThread.stack_top, c)
                 && (newThread.stack_top + FRAME_SIZE <= rsp + 8 - FRAME_SIZE || rsp + 8 <= newThread.stack_top)
      modifies this, oldThread`stack_top
      ensures Switched(old(State()), old(mem), old(newThread.stack_top), newThread == oldThread, State(), mem,
                       oldThread.stack_top)
      ensures oldThread.stack_top == old(rsp) + 8 - 0x80
      ensures Saved(mem, oldThread.stack_top, Cpu(old(regs), old(rsp) + 8, LoadWord(old(mem), old(rsp))))
      ensures State() == if newThread == oldThread then Cpu(old(regs), old(rsp) + 8, LoadWord(old(mem), old(rsp))) else c
    {
      hide Words, SavedWords;
      SaveRegisters();
      oldThread.stack_top := rsp;
      if newThread != oldThread {
        SavedElsewhere(old(mem), mem, newThread.stack_top, c);
      }
      rsp := newThread.stack_top;
      RestoreRegisters(if newThread == oldThread then CallerOf(old(State()), old(mem)) else c);
    }
  }

  lemma ReturnAddress(m: Mem, sp: nat)
    requires sp + 8 <= |m|
    ensures Words(m, sp, Word(LoadWord(m, sp), Bottom))
  {
  }

  lemma SavedLength(c: Cpu)
    ensures SavedWords(c).Length() == 16
  {
    var w := SavedWords(c);
    FourMore(w);
    FourMore(w.above.above.above.above);
    FourMore(w.above.above.above.above.above.above.above.above);
    FourMore(w.above.above.above.above.above.above.above.above.above.above.above.above);
  }

  lemma FourMore(w: WordList)
    requires w.Word? && w.above.Word? && w.above.above.Word? && w.above.above.above.Word?
    ensures w.Length() == 4 + w.above.above.above.above.Length()
  {
    assert w.above.above.Length() == 2 + w.above.above.above.above.Length();
  }

  lemma SavedElsewhere(m: Mem, m': Mem, top: nat, c: Cpu)
    requires Saved(m, top, c) && |m'| == |m|
    requires forall k :: top <= k < top + FRAME_SIZE && k < |m| ==> m'[k] == m[k]
    ensures Saved(m', top, c)
  {
    assert SavedWords(c).Length() <= 16 by { SavedLength(c); }
    WordsFrame(m, m', top, SavedWords(c));
  }
}
