/** Failure-compatible wrappers shared by the placement modules. */
module Outcomes {

  /** A value that may be absent: a missing dictionary key, or "no best trial yet". */
  datatype Option<+T> = None | Some(value: T)

  /** The value of a computation, or the error it raised. */
  datatype Result<+T, +E> = Success(value: T) | Failure(error: E)
}
