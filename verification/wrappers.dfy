/** Failure-compatible wrappers shared by the whole model. */
module Wrappers {

  /** A value that may be absent (Python's `None`). */
  datatype Option<+T> = None | Some(value: T)

  /** The outcome of an operation that can abort the run. */
  datatype Result<+T, +E> = Success(value: T) | Failure(error: E)
}
