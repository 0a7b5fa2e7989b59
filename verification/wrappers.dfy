/** Failure-carrying datatypes shared by the scanner model. */
module Wrappers {

  /** A value that may be absent (Python's `Optional`, `None`). */
  datatype Option<+T> = None | Some(value: T)

  /** The outcome of an operation that either succeeds or raises. */
  datatype Result<+R, +E> = Success(value: R) | Failure(error: E)
}
