/** Option and Result, the two failure-carrying types the rest of the model uses. */
module Wrappers {

  /** A value that may be absent (the source's `null` / `undefined`). */
  datatype Option<+T> = None | Some(value: T)

  /** A value or the error a call threw. */
  datatype Result<+T, +E> = Success(value: T) | Failure(error: E)

  /** Completion or the error a call threw, for calls that return nothing. */
  datatype Outcome<+E> = Pass | Fail(error: E)
}
