/** The ways a kernel operation can end, shared by every module. */
module Outcomes {

  datatype Option<+T> = None | Some(value: T)

  /** Result of an operation: a value, a reported error, or a halt of the kernel by `panic!`.
      Nothing is promised about the state after `Panic`, unless a contract says so. */
  datatype Outcome<+T, +E> = Ok(value: T) | Err(error: E) | Panic

  datatype Unit = Unit

  /** The errors that the modelled operations report. */
  datatype MemoryError = OutOfBounds | PageNotPresent | WriteToReadOnly | AllocationError
}
