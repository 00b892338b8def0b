/** The fatal invariant checks of the fault manager (`CHECK`, `CHECK_EQ`, `CHECK_NE`,
    `LOG(FATAL)`). Each one ends the process; the model returns it as a value. */
module Failures {

  datatype AbortReason =
    | AlreadyInitialized   // `Init` on a manager that is already initialized
    | RangeNotFound        // `RemoveGeneratedCodeRange` of a start that is not registered
    | RangeSizeMismatch    // `RemoveGeneratedCodeRange` whose size differs from the registered one
    | HandlerNotFound      // `RemoveHandler` of a handler in neither bucket
    | NullFaultSp          // the stack-trace handler found no stack pointer in generated code

  /** Outcome of an operation that returns nothing unless it aborts. */
  datatype Status = Ok | Fatal(reason: AbortReason)
}
