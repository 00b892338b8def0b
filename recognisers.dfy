/** The recognisers of `NullPointerHandler` and the `JavaStackTraceHandler` action, and
    the signal-code names used in the fault log. */
module Recognisers {
  import opened Words
  import opened Seqs
  import opened Failures
  import opened Classifier
  import opened HandlerChain

  /** The two reference fields that `IsValidMethod` reads without barriers: the declaring
      class of a method (keyed by the method's address) and the class of an object (keyed
      by the object's address). An address outside a map is memory whose read faults. */
  datatype Memory = Memory(declaringClass: map<Word, Word>, classOf: map<Word, Word>)

  /** The check that rejected a suspected method, named as its log message names it. */
  datatype MethodReject =
    | NullMethod | UnalignedMethod
    | NullClass | UnalignedClass
    | NullClassClass | UnalignedClassClass
    | InvalidClassClass

  /** Outcome of the speculative validation: valid, rejected by a check, or a nested fault
      while reading memory at `addr` (the dispatcher is re-entered for it). */
  datatype MethodProbe = ValidMethod | Rejected(reason: MethodReject) | NestedFault(addr: Word)

  /** The structural fixed point standing for "this is `Class.class`": a non-null,
      object-aligned object that is its own class. */
  predicate IsClassClass(c: Word, mem: Memory)
  {
    c != 0 && Aligned(c, ObjectAlignment) && c in mem.classOf && mem.classOf[c] == c
  }

  /** `NullPointerHandler::IsValidMethod`: method -> declaring class -> class of the
      class, each non-null and aligned, and the last its own class. */
  function IsValidMethod(methodAddr: Word, mem: Memory): (r: MethodProbe)
    ensures r == ValidMethod <==>
              && methodAddr != 0 && Aligned(methodAddr, PointerSize) && methodAddr in mem.declaringClass
              && var klass := mem.declaringClass[methodAddr];
                 klass != 0 && Aligned(klass, ObjectAlignment) && klass in mem.classOf
                 && IsClassClass(mem.classOf[klass], mem)
    ensures r.NestedFault? ==>
              (r.addr == methodAddr && methodAddr !in mem.declaringClass) || r.addr !in mem.classOf
    ensures r == Rejected(NullMethod) <==> methodAddr == 0
    ensures r == Rejected(UnalignedMethod) <==> methodAddr != 0 && !Aligned(methodAddr, PointerSize)
  {
    if methodAddr == 0 then Rejected(NullMethod)
    else if !Aligned(methodAddr, PointerSize) then Rejected(UnalignedMethod)
    else if methodAddr !in mem.declaringClass then NestedFault(methodAddr)
    else
      var klass := mem.declaringClass[methodAddr];
      if klass == 0 then Rejected(NullClass)
      else if !Aligned(klass, ObjectAlignment) then Rejected(UnalignedClass)
      else if klass !in mem.classOf then NestedFault(klass)
      else
        var classClass := mem.classOf[klass];
        if classClass == 0 then Rejected(NullClassClass)
        else if !Aligned(classClass, ObjectAlignment) then Rejected(UnalignedClassClass)
        else if classClass !in mem.classOf then NestedFault(classClass)
        else if mem.classOf[classClass] != classClass then Rejected(InvalidClassClass)
        else ValidMethod
  }

  /** The diagnostic line logged for each rejection. */
  function RejectMessage(reason: MethodReject): string
  {
    match reason
    case NullMethod => "null method"
    case UnalignedMethod => "unaligned method"
    case NullClass => "null class"
    case UnalignedClass => "unaligned class"
    case NullClassClass => "null class_class"
    case UnalignedClassClass => "unaligned class_class"
    case InvalidClassClass => "invalid class_class"
  }

  /** The message logged by a probe: its rejection's message, or nothing. */
  function ProbeMessage(methodAddr: Word, mem: Memory): string
  {
    match IsValidMethod(methodAddr, mem)
    case Rejected(reason) => RejectMessage(reason)
    case _ => ""
  }

  /** The message as the source logs it: at the class_class check it tests `klass`, the
      pointer checked one step earlier, instead of `class_class`. */
  function ProbeMessageAsWritten(methodAddr: Word, mem: Memory): (msg: string)
    ensures msg != "null class_class"
  {
    match IsValidMethod(methodAddr, mem)
    case Rejected(reason) =>
      if reason == NullClassClass || reason == UnalignedClassClass then
        var klass := mem.declaringClass[methodAddr];
        if klass == 0 then "null class_class" else "unaligned class_class"
      else RejectMessage(reason)
    case _ => ""
  }

  /** As written, a null class_class is reported as unaligned: here the method at 0x1000
      has declaring class 0x2000 whose class pointer is null. */
  lemma ProbeMessageAsWrittenMislabelsNull()
    ensures var mem := Memory(map[0x1000 := 0x2000], map[0x2000 := 0]);
            && IsValidMethod(0x1000, mem) == Rejected(NullClassClass)
            && ProbeMessageAsWritten(0x1000, mem) == "unaligned class_class"
            && ProbeMessage(0x1000, mem) == "null class_class"
  {
    var mem := Memory(map[0x1000 := 0x2000], map[0x2000 := 0]);
    assert Aligned(0x1000, PointerSize) && Aligned(0x2000, ObjectAlignment);
    assert IsValidMethod(0x1000, mem) == Rejected(NullClassClass);
  }

  /** With the message chosen by the check that failed, "null class_class" is logged
      exactly when the method and its class pass their checks and the class of the class
      is null. */
  lemma ProbeMessageNamesNullClassClass(methodAddr: Word, mem: Memory)
    ensures ProbeMessage(methodAddr, mem) == "null class_class" <==>
              && methodAddr != 0 && Aligned(methodAddr, PointerSize) && methodAddr in mem.declaringClass
              && var klass := mem.declaringClass[methodAddr];
                 klass != 0 && Aligned(klass, ObjectAlignment) && klass in mem.classOf
                 && mem.classOf[klass] == 0
  {
    var r := IsValidMethod(methodAddr, mem);
    if r.Rejected? && r.reason != NullClassClass {
      assert RejectMessage(r.reason) != "null class_class" by {
        match r.reason
        case NullMethod => assert |"null method"| != |"null class_class"|;
        case UnalignedMethod => assert "unaligned method"[0] != "null class_class"[0];
        case NullClass => assert |"null class"| != |"null class_class"|;
        case UnalignedClass => assert "unaligned class"[0] != "null class_class"[0];
        case NullClassClass =>
        case UnalignedClassClass => assert "unaligned class_class"[0] != "null class_class"[0];
        case InvalidClassClass => assert "invalid class_class"[0] != "null class_class"[0];
      }
    }
    if !r.Rejected? {
      assert |""| != |"null class_class"|;
    }
  }

  /** The page size the compiler's implicit null checks rely on. */
  const PageSize: Word := 4096

  /** `CanDoImplicitNullCheckOn`: the faulting address lies within the first page, the one
      reachable from a null base by the compiler's implicit checks. */
  predicate CanDoImplicitNullCheckOn(addr: Word)
  {
    addr < PageSize
  }

  /** `NullPointerHandler::IsValidImplicitCheck`. */
  predicate IsValidImplicitCheck(f: Fault)
  {
    CanDoImplicitNullCheckOn(f.addr)
  }

  /** The implicit-check test depends only on the fault address, accepts every address of
      the first page and rejects the address `0x7fff00000000`. */
  lemma ImplicitCheckWithinFirstPage(f: Fault, g: Fault)
    ensures f.addr == g.addr ==> IsValidImplicitCheck(f) == IsValidImplicitCheck(g)
    ensures IsValidImplicitCheck(f) <==> exists k: Word :: k < PageSize && f.addr == Advance(0, k)
    ensures !IsValidImplicitCheck(f.(addr := 0x7fff00000000))
  {
    if f.addr < PageSize {
      assert Advance(0, f.addr) == f.addr;
    }
  }

  /** What the stack-trace handler's `Action` does besides returning its verdict. */
  datatype StackDump = NoDump | DumpFrom(sp: Word)

  datatype TraceAction = TraceAction(dump: StackDump, verdict: Verdict)

  /** `JavaStackTraceHandler::Action`, given what the classifier says of the fault and the
      fault's stack pointer: dump the managed stack from `sp` when in generated code (a
      null `sp` there fails a fatal check), and never claim the fault. */
  function JavaStackTraceAction(inGeneratedCode: bool, sp: Word): (a: TraceAction)
    ensures a.verdict != Claimed
    ensures a.dump.DumpFrom? <==> inGeneratedCode && sp != 0
    ensures a.dump.DumpFrom? ==> a.dump.sp == sp
    ensures a.verdict.Failed? <==> inGeneratedCode && sp == 0
  {
    if !inGeneratedCode then TraceAction(NoDump, Declined)
    else if sp == 0 then TraceAction(NoDump, Failed(NullFaultSp))
    else TraceAction(DumpFrom(sp), Declined)
  }

  const SIGSEGV: int := 11
  const SEGV_MAPERR: int := 1
  const SEGV_ACCERR: int := 2
  const SEGV_MTEAERR: int := 8
  const SEGV_MTESERR: int := 9

  /** The signal codes that `SignalCodeName` names. */
  predicate NamedSegvCode(code: int)
  {
    code == SEGV_MAPERR || code == SEGV_ACCERR || code == SEGV_MTEAERR || code == SEGV_MTESERR
  }

  /** `SignalCodeName`: the symbolic name of a segmentation-fault code. */
  function SignalCodeName(sig: int, code: int): (name: string)
    ensures sig != SIGSEGV ==> name == "UNKNOWN"
    ensures name != "UNKNOWN" <==> sig == SIGSEGV && NamedSegvCode(code)
  {
    if sig != SIGSEGV then "UNKNOWN"
    else if code == SEGV_MAPERR then "SEGV_MAPERR"
    else if code == SEGV_ACCERR then "SEGV_ACCERR"
    else if code == SEGV_MTEAERR then "SEGV_MTEAERR"
    else if code == SEGV_MTESERR then "SEGV_MTESERR"
    else "UNKNOWN"
  }

  /** The inverse of `SignalCodeName` on its named codes. */
  function SignalCodeOf(name: string): Option<int>
  {
    if name == "SEGV_MAPERR" then Some(SEGV_MAPERR)
    else if name == "SEGV_ACCERR" then Some(SEGV_ACCERR)
    else if name == "SEGV_MTEAERR" then Some(SEGV_MTEAERR)
    else if name == "SEGV_MTESERR" then Some(SEGV_MTESERR)
    else None
  }

  /** Every named code is recovered from its name, so distinct codes get distinct names. */
  lemma SignalCodeNameRoundTrip(code: int)
    requires NamedSegvCode(code)
    ensures SignalCodeOf(SignalCodeName(SIGSEGV, code)) == Some(code)
  {
  }
}
