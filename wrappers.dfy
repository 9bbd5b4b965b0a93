/** Failure-compatible result types used across the model. */
module Wrappers {

  /** An optional value: Python's `None` or a value. */
  datatype Option<+T> = None | Some(value: T)

  /** A value or an error message: a function that returns or raises. */
  datatype Result<+T, +E> = Success(value: T) | Failure(error: E)
}
