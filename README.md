# ART fault-dispatch manager, modelled in Dafny

This project models the sequential logic of ART's `FaultManager` (`runtime/fault_handler.cc`,
`runtime/fault_handler.h`). The manager receives every `SIGSEGV` raised in the process and
decides whether the runtime itself caused it deliberately. Examples are an implicit null check,
a suspend-check page read or a stack-overflow probe in JIT/AOT-compiled ("generated") code. If
so, a registered handler turns the fault into the intended control transfer. Otherwise the fault
is passed on down the signal chain.

The model has four parts.

- **Generated-code range registry** (`code_ranges.dfy`, `fault_manager.dfy`). The registry is
  a singly linked list of heap nodes `RangeNode(start, size, next)`, held by the class
  `FaultManagement.FaultManager` through its `head` field.
  - A ghost sequence `nodes` lists the reachable nodes. `Valid()` states that `head` and the
    `next` links follow that sequence exactly and that no node occurs twice.
  - `Ranges()` is the abstract list of `(start, size)` payloads, newest first.
  - Insertion relinks the head. Removal walks with a `before`/`range` pair and redirects the
    predecessor's link. The removed node keeps its own `next` link, and its postcondition states
    this.
- **Classifier** (`classifier.dfy`). `IsInGeneratedCode` runs four fast-reject checks in a
  fixed order: there is a current thread, it is Runnable, it holds the mutator lock shared, and
  the fault pc is nonzero. It then walks the list with the single unsigned test
  `pc - start < size`.
  - Addresses and sizes are 64-bit unsigned words (`words.dfy`), and subtraction wraps modulo
    2^64.
- **Handler chain** (`handler_chain.dfy`, `fault_manager.dfy`). Handlers sit in two ordered
  buckets, one for generated code and one for the rest.
  - `HandleFault` consults the generated-code bucket only for a fault in generated code, then
    the other bucket. The first handler that does not decline decides.
  - The generic first-match scan `Scan` and the two-bucket `Dispatch` specify the two loops of
    `FaultManager.HandleFault` and `HandleFaultByOtherHandlers`.
  - `DispatchIsOneScan` shows that the two loops act as one scan over the concatenated
    candidates.
- **Recognisers** (`recognisers.dfy`).
  - `NullPointerHandler::IsValidMethod` is the speculative method -> class -> class-of-class
    chain, over a map-based memory in which an unmapped address is a nested fault.
  - `IsValidImplicitCheck` tests whether the faulting address is within the first page.
  - The `JavaStackTraceHandler` action never claims a fault.
  - `SignalCodeName` names the segmentation-fault codes.

Fatal checks (`CHECK`, `CHECK_EQ`, `CHECK_NE`, `LOG(FATAL)`) become the value
`Fatal(reason)` of type `Failures.Status`, or the verdict `Failed(reason)` inside a handler,
which makes `HandleFault` report `Crashed(reason)`. In `RemoveGeneratedCodeRange` the size
check comes after the unlink, as in the code. So a size mismatch aborts with the node already
unlinked, and the postcondition states that state.

The code and the header's comments disagree in a few places; the model follows the code.
- The header says that `Shutdown` unclaims the signals and deletes the registered handlers, and
  that added handlers are freed on `Shutdown` (`runtime/fault_handler.h:50`, `:59`), with no
  condition. The code frees handlers and ranges only when the manager is initialized, and
  otherwise does nothing (`runtime/fault_handler.cc:107-129`).
- The header is out of step with the `.cc`. It declares `Init(bool)`,
  `HandleSigsegvFault`/`HandleSigbusFault` and a `check_dex_pc` parameter for
  `IsInGeneratedCode`. The model follows the definitions in the `.cc`: `Init()`,
  `HandleFault`, and `IsInGeneratedCode` without that parameter.

The `Action` of the null-pointer, suspension and stack-overflow handlers is defined in
architecture-specific files. It is an oracle parameter `claims(handler, fault)`. The thread
state, the mutator-lock status and the fault's pc, sp and address are inputs (`Classifier.Thread`,
`Classifier.Fault`).

## Model

| member | source | states |
|---|---|---|
| Words.WrapTestIsOffset | runtime/fault_handler.cc:338 | the unsigned test `pc - start < size` holds exactly when `pc` is `start` advanced by some offset below `size`, modulo 2^64 |
| Words.WrapTestIsInterval | runtime/fault_handler.cc:338 | for a region that does not cross the top of the address space, the single test is the two-sided bound `start <= pc < start + size` |
| CodeRanges.ContainsIsOffset | runtime/fault_handler.cc:338 | a range contains `pc` exactly when `pc` is one of its `size` addresses counted from `start` with wraparound |
| CodeRanges.ContainsIsInterval | runtime/fault_handler.cc:338 | a non-wrapping range contains exactly the addresses of `[start, start + size)` |
| CodeRanges.CoversIff | runtime/fault_handler.cc:336-351 | the walk returns true exactly when some listed range passes the bounds test, and false on the empty list |
| CodeRanges.Contains | runtime/fault_handler.cc:338 | the per-node bounds test `pc - start < size` on unsigned words; its meaning is stated by `ContainsIsOffset` and `ContainsIsInterval` |
| CodeRanges.Covers | runtime/fault_handler.cc:336-351 | the walk is false on the empty list and true only when some listed range contains the pc (the converse is `CoversIff`) |
| CodeRanges.FindStart | runtime/fault_handler.cc:262-267 | the walk stops at the first node from the head whose start matches, or at the end of the list when none does |
| CodeRanges.FindStartAt | runtime/fault_handler.cc:262-267 | any position with no match before it and a match (or the end) at it is the one the walk stops at |
| CodeRanges.AfterRemove | runtime/fault_handler.cc:268-283 | removal leaves the list unchanged when no start matches, and otherwise shortens it by exactly one |
| CodeRanges.AddThenRemove | runtime/fault_handler.cc:229-283 | removing by the start of the range just added finds it at the head and restores the previous list |
| CodeRanges.RemoveDropsExactlyStart | runtime/fault_handler.cc:257-283 | with unique starts, removal keeps starts unique, and a range remains iff it was listed and has a different start |
| CodeRanges.CoversAfterRemove | runtime/fault_handler.cc:257-283 | after a removal, the walk finds `pc` iff a range with a different start contained it before |
| CodeRanges.CoversAfterAdd | runtime/fault_handler.cc:229-236 | after an insertion, the walk finds `pc` iff the new range or one of the earlier ranges contains it |
| Classifier.FastReject | runtime/fault_handler.cc:310-333 | reports no failure iff all four checks pass; a reported failure is a failing check, and every check run before it passes |
| Classifier.Classify | runtime/fault_handler.cc:306-352 | a fault is classified as in generated code only for a Runnable current thread holding the mutator lock, a nonzero pc, and a range containing it |
| Classifier.ClassifyIff | runtime/fault_handler.cc:306-352 | `IsInGeneratedCode` holds iff there is a Runnable current thread holding the mutator lock, the pc is nonzero, and some listed range contains the pc |
| Classifier.ClassifyScenario | runtime/fault_handler.cc:310-340 | a fault at 0x1050 inside the registered region [0x1000, 0x1200) is in generated code for a Runnable thread with the lock, and is rejected at the lock check without it |
| HandlerChain.Scan | runtime/fault_handler.cc:141-146 | the handlers invoked are a prefix of the bucket; the result is unhandled iff every handler declines, and otherwise comes from the last handler invoked, all earlier ones having declined |
| HandlerChain.ScanStopsAt | runtime/fault_handler.cc:141-146 | the scan ends at the first non-declining handler, after invoking exactly the handlers up to it, or runs over the whole bucket |
| HandlerChain.Dispatch | runtime/fault_handler.cc:182-199 | outside generated code only the other bucket is scanned; in generated code a decision in the generated bucket is final, and otherwise the whole generated bucket is invoked before the other bucket's scan decides |
| HandlerChain.DispatchIsOneScan | runtime/fault_handler.cc:172-204 | the two loops of `HandleFault` act as one first-match scan over the generated bucket (when in generated code) followed by the other bucket |
| HandlerChain.ScanHandledIff | runtime/fault_handler.cc:141-146 | a bucket reports handled iff some handler claims the fault and every handler before it declines |
| HandlerChain.FirstRegisteredWins | runtime/fault_handler.cc:184-190 | once the handler at position `i` claims, the scan stops no later than `i`, and no later handler is invoked |
| HandlerChain.DispatchOutcome | runtime/fault_handler.cc:172-204 | `HandleFault` returns true iff some candidate claims with all earlier candidates declining, and false iff all decline; the invoked handlers are a prefix of the candidates |
| HandlerChain.DispatchEmpty | runtime/fault_handler.cc:131-204 | with both buckets empty, no handler is invoked and the fault is unhandled |
| Recognisers.IsValidMethod | runtime/fault_handler.cc:364-407 | valid iff the method is non-null and pointer-aligned, its class is non-null and object-aligned, and that class's class is a non-null aligned object that is its own class; the null and unaligned method rejections hold exactly for those inputs; a nested fault is at an unmapped address |
| Recognisers.ProbeMessage | runtime/fault_handler.cc:374-404 | the corrected diagnostic: the message of the check that rejected the method, or none; `ProbeMessageNamesNullClassClass` states when it reads "null class_class" |
| Recognisers.ProbeMessageAsWritten | runtime/fault_handler.cc:396-398 | as written, the message "null class_class" is never logged, whatever the memory holds |
| Recognisers.ProbeMessageAsWrittenMislabelsNull | runtime/fault_handler.cc:396-398 | a method at 0x1000 whose class 0x2000 has a null class is rejected for a null class_class but logged as "unaligned class_class" |
| Recognisers.ProbeMessageNamesNullClassClass | runtime/fault_handler.cc:374-399 | with the corrected message, "null class_class" is logged exactly when the method and class checks pass and the class's class is null |
| Recognisers.IsValidImplicitCheck | runtime/fault_handler.h:111-117 | the implicit-check test delegates to the one-page test on the fault address; its properties are stated by `ImplicitCheckWithinFirstPage` |
| Recognisers.ImplicitCheckWithinFirstPage | runtime/fault_handler.h:111-117 | the implicit-check test depends only on the fault address, accepts exactly the addresses of the first page from null, and rejects a high address |
| Recognisers.JavaStackTraceAction | runtime/fault_handler.cc:455-470 | never claims; dumps the stack from `sp` iff in generated code with a nonzero `sp`; fails the `sp != 0` check iff in generated code with a null `sp` |
| Recognisers.SignalCodeName | runtime/fault_handler.cc:149-161 | any non-SIGSEGV signal is "UNKNOWN"; the name is known iff the signal is SIGSEGV and the code is one of MAPERR, ACCERR, MTEAERR (8), MTESERR (9) |
| Recognisers.SignalCodeNameRoundTrip | runtime/fault_handler.cc:153-159 | each named code is recovered from its name, so the named codes get distinct names |
| Seqs.IndexOf | runtime/fault_handler.cc:216-221 | `std::find` gives the position of the first occurrence, or the end iff the element is absent |
| Seqs.RemoveAt | runtime/fault_handler.cc:218-223 | `erase` at a position keeps the elements before it and shifts those after it down by one |
| Seqs.RemoveAtMultiset | runtime/fault_handler.cc:218-223 | `erase` removes exactly one occurrence of the erased element |
| Seqs.EraseFirst | runtime/fault_handler.cc:216-224 | erasing the first occurrence leaves an absent element's vector unchanged, and otherwise removes exactly one occurrence, the first one |
| FaultManagement.RangesOfRemoveAt | runtime/fault_handler.cc:268-283 | unlinking the node at position `k` removes the payload at position `k` from the abstract list |
| FaultManagement.UnlinkKeepsLinked | runtime/fault_handler.cc:268-283 | redirecting the predecessor's link past node `i` leaves the remaining nodes linked in order |
| FaultManagement.RemoveAtKeepsDistinct | runtime/fault_handler.cc:268-283 | unlinking keeps every remaining node distinct |
| FaultManagement.Act | runtime/fault_handler.cc:455-470 | a handler claims only if it is not the stack-trace handler and the oracle says it claims; the verdict is a failure exactly for the stack-trace handler in generated code with a null sp |
| FaultManagement.HandledOnlyByClaimant | runtime/fault_handler.cc:172-204 | a fault reported handled was claimed by the last handler invoked, which is not the stack-trace handler |
| FaultManagement.FaultHandler.constructor | runtime/fault_handler.cc:354-362 | each handler keeps its manager and appends itself to the generated-code bucket, or to the other bucket for the stack-trace handler; the range list is unchanged |
| FaultManagement.FaultHandler.Action | runtime/fault_handler.h:92-99 | the verdict is this handler's action on the fault, given whether the manager's classifier puts it in generated code; the stack-trace handler never claims |
| FaultManagement.FaultManager.constructor | runtime/fault_handler.cc:62-67 | a new manager is uninitialized, with no ranges and no handlers |
| FaultManagement.FaultManager.Init | runtime/fault_handler.cc:72-98 | sets `initialized`; initializing twice is fatal; handlers and ranges are unchanged |
| FaultManagement.FaultManager.Release | runtime/fault_handler.cc:100-105 | clears `initialized` and keeps every handler and range |
| FaultManagement.FaultManager.Shutdown | runtime/fault_handler.cc:107-129 | when initialized, releases, frees every handler of both buckets and every range node in list order, and leaves both buckets and the range list empty; otherwise changes nothing |
| FaultManagement.FaultManager.AddHandler | runtime/fault_handler.cc:206-213 | appends the handler to the generated-code bucket iff `generatedCode`, otherwise to the other bucket; the other bucket and the ranges are unchanged |
| FaultManagement.FaultManager.RemoveHandler | runtime/fault_handler.cc:215-227 | erases the first occurrence from the generated-code bucket if present, else from the other bucket, else is fatal; the untouched bucket is unchanged |
| FaultManagement.FaultManager.AddGeneratedCodeRange | runtime/fault_handler.cc:229-236 | the new list is the fresh range followed by the previous list; handlers and `initialized` are unchanged |
| FaultManagement.FaultManager.RemoveGeneratedCodeRange | runtime/fault_handler.cc:257-287 | unlinks the first node from the head whose start matches, keeping the others in order and the removed node's `next` on its former successor; fatal if no start matches, and fatal after the unlink if the sizes differ |
| FaultManagement.FaultManager.IsInGeneratedCode | runtime/fault_handler.cc:306-352 | the result is the classifier's answer; the check that returns early is the first failing one in the order thread, Runnable, lock, pc, and then no node is visited; otherwise the walk visits the nodes from the head up to and including the first that contains the pc, or all of them when none does |
| FaultManagement.FaultManager.HandleFaultByOtherHandlers | runtime/fault_handler.cc:131-147 | the result and the handlers invoked are those of the first-match scan of the other bucket |
| FaultManagement.FaultManager.HandleFault | runtime/fault_handler.cc:172-204 | the result and the handlers invoked are those of the two-bucket dispatch, with the generated-code bucket only for a fault in generated code |

## Left out

- Signal installation and chaining (`sigaction`, `AddSpecialSignalHandlerFn`,
  `RemoveSpecialSignalHandlerFn`, `art_fault_handler`) is operating-system plumbing. `Init`
  and `Release` only flip `initialized`.
- The `membarrier` registration and calls, the ranges mutex, and the acquire/release/relaxed
  orderings on the list links are not modelled. Every operation is atomic, so concurrent walks
  that see a node being removed are out of scope. The model does state the retained `next`
  link that makes such walks safe.
- The empty checkpoint and the deletion of the removed range node after
  `RemoveGeneratedCodeRange` are thread-list machinery. The node is unlinked and returned as a
  ghost result. The `CHECK(runtime != nullptr)` guarding that checkpoint
  (`runtime/fault_handler.cc:290`) is part of it and has no abort reason in the model.
- `TEST_NESTED_SIGNAL`, the `VLOG` tracing and `PrintSignalInfo`, and the `art_sigsegv_fault`
  debugger hook only log or raise test signals. The model keeps the message text only where a
  defect in it is shown (`Recognisers.ProbeMessage`).
- `GetFaultPc` and `GetFaultSp` are platform-specific. The pc and sp are fields of the
  `Fault` input.
- `IsValidReturnPc` relies on method headers and dex-pc maps. It is not part of this model.
- The `Action` bodies of `NullPointerHandler`, `SuspensionHandler` and `StackOverflowHandler`
  are architecture-specific. They are given by the oracle `claims`.
- `SetTopOfStack` and `DumpJavaStack` walk the runtime stack. `JavaStackTraceAction` records
  only the decision to dump from `sp`.
- The `DCHECK`s on the current thread and the runtime in `HandleFaultByOtherHandlers` are
  debug-only. Only the early return for an empty other bucket is modelled.
- The thread state is reduced to a few representative states, of which only `Runnable`
  matters to the classifier.
- `CanDoImplicitNullCheckOn` is defined outside the model. It is taken as "the address is
  below the 4096-byte page", which is its documented intent.
- `runtime/gc/heap_test.cc` exercises the garbage collector and is not related to fault
  dispatch.
- FaultManagement.FaultManager.AddHandler: requires `handler.manager == this`. Every
  registration in the source comes from the handler's own constructor with its own manager.
  The debug check that the manager is initialized is a precondition, not a fatal result.
- FaultManagement.FaultManager.Shutdown: freeing a handler or a range is its removal from the
  manager plus its appearance in the ghost results `freedHandlers` and `freedRanges`. The
  memory reclamation is not modelled.

## Findings

| source | as written | input that shows it | evidently intended | confidence | as-written member | corrected member |
|---|---|---|---|---|---|---|
| runtime/fault_handler.cc:397 | the message for a failed class_class check tests `klass == nullptr`, which is always false at that point, so it always says "unaligned class_class" | method 0x1000, declaring class 0x2000, class of 0x2000 null | test `class_class == nullptr` and log "null class_class" | not executed | Recognisers.ProbeMessageAsWrittenMislabelsNull | Recognisers.ProbeMessageNamesNullClassClass |
