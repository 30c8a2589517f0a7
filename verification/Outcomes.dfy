/** What a call that may stop the machine yields. A halted machine never returns. */
module Outcomes {

  /** Why `panic` or `assert` was reached, or that a loop never ends. */
  datatype Halt =
    | AssertFailed
    | Remapped
    | HeapExhausted
    | HeapDisabled
    | FramesExhausted
    | Unimplemented
    | NeverReturns
    | NotElf

  datatype Outcome<+T> = Halted(why: Halt) | Done(value: T) {
    predicate IsFailure() {
      Halted?
    }

    function PropagateFailure<U>(): Outcome<U>
      requires Halted?
    {
      Halted(why)
    }

    function Extract(): T
      requires Done?
    {
      value
    }
  }
}
