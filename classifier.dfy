/** The fault classifier: did the fault happen while this thread was running generated
    code? Thread state, the mutator lock and the fault program counter come from
    collaborators outside the fault manager and are inputs here. */
module Classifier {
  import opened Words
  import opened Seqs
  import opened CodeRanges

  /** A thread's cooperative execution state; only `Runnable` means managed code may run. */
  datatype ThreadState = Runnable | Native | Suspended | Blocked | Waiting | Sleeping | Starting | Terminated

  /** What the classifier learns about the current thread. */
  datatype Thread = Thread(state: ThreadState, holdsMutatorShared: bool)

  /** The per-fault payload: signal number, signal code, faulting data address, and the
      program counter and stack pointer taken from the machine context. */
  datatype Fault = Fault(sig: int, code: int, addr: Word, pc: Word, sp: Word)

  /** The fast-reject checks of `IsInGeneratedCode`, named by the failure they detect. */
  datatype Reject = NoCurrentThread | NotRunnable | NoMutatorLock | NoFaultPc

  /** Position of each check in the order the classifier runs them. */
  function Rank(c: Reject): nat
  {
    match c
    case NoCurrentThread => 0
    case NotRunnable => 1
    case NoMutatorLock => 2
    case NoFaultPc => 3
  }

  /** Whether the condition that check `c` tests holds. */
  predicate Passes(c: Reject, current: Option<Thread>, pc: Word)
  {
    match c
    case NoCurrentThread => current.Some?
    case NotRunnable => current.Some? && current.value.state == Runnable
    case NoMutatorLock => current.Some? && current.value.holdsMutatorShared
    case NoFaultPc => pc != 0
  }

  /** The first check that fails, in the classifier's order, or `None` when all pass. */
  function FastReject(current: Option<Thread>, pc: Word): (r: Option<Reject>)
    ensures r.None? <==> forall c :: Passes(c, current, pc)
    ensures r.Some? ==> !Passes(r.value, current, pc)
    ensures r.Some? ==> forall c :: Rank(c) < Rank(r.value) ==> Passes(c, current, pc)
  {
    if current.None? then
      assert !Passes(NoCurrentThread, current, pc);
      Some(NoCurrentThread)
    else if current.value.state != Runnable then
      assert !Passes(NotRunnable, current, pc);
      Some(NotRunnable)
    else if !current.value.holdsMutatorShared then
      assert !Passes(NoMutatorLock, current, pc);
      Some(NoMutatorLock)
    else if pc == 0 then
      assert !Passes(NoFaultPc, current, pc);
      Some(NoFaultPc)
    else
      AllPass(current.value, pc);
      None
  }

  /** A Runnable thread holding the mutator lock, with a nonzero pc, passes every check. */
  lemma AllPass(t: Thread, pc: Word)
    requires t.state == Runnable && t.holdsMutatorShared && pc != 0
    ensures forall c :: Passes(c, Some(t), pc)
  {
    forall c ensures Passes(c, Some(t), pc) {
      match c
      case NoCurrentThread =>
      case NotRunnable =>
      case NoMutatorLock =>
      case NoFaultPc =>
    }
  }

  /** `IsInGeneratedCode`: every fast check passes and the range walk finds `pc`. */
  function Classify(current: Option<Thread>, pc: Word, rs: seq<Range>): (r: bool)
    ensures r ==> current.Some? && current.value.state == Runnable && current.value.holdsMutatorShared
    ensures r ==> pc != 0 && exists i :: 0 <= i < |rs| && Contains(rs[i], pc)
  {
    FastReject(current, pc).None? && Covers(rs, pc)
  }

  /** The classifier accepts exactly a Runnable thread holding the mutator lock, with a
      nonzero pc inside some registered range. */
  lemma ClassifyIff(current: Option<Thread>, pc: Word, rs: seq<Range>)
    ensures Classify(current, pc, rs) <==>
              && current.Some? && current.value.state == Runnable
              && current.value.holdsMutatorShared && pc != 0
              && exists i :: 0 <= i < |rs| && Contains(rs[i], pc)
  {
    CoversIff(rs, pc);
    if FastReject(current, pc).None? {
      assert Passes(NoCurrentThread, current, pc) && Passes(NotRunnable, current, pc);
      assert Passes(NoMutatorLock, current, pc) && Passes(NoFaultPc, current, pc);
    }
  }

  /** A registered region `[0x1000, 0x1200)` and a fault at pc `0x1050`: a Runnable thread
      holding the mutator lock is classified in generated code; without the lock it is not. */
  lemma ClassifyScenario()
    ensures Classify(Some(Thread(Runnable, true)), 0x1050, [Range(0x1000, 0x200)])
    ensures !Classify(Some(Thread(Runnable, false)), 0x1050, [Range(0x1000, 0x200)])
    ensures FastReject(Some(Thread(Runnable, false)), 0x1050) == Some(NoMutatorLock)
  {
    assert Contains(Range(0x1000, 0x200), 0x1050) by {
      assert WrapSub(0x1050, 0x1000) == 0x50;
    }
  }
}
