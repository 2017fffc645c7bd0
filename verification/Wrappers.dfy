/** Failure-compatible results used throughout the model. */
module Wrappers {

  datatype Option<+T> = None | Some(value: T)

  /** A Go pair of a value and an error, of which exactly one is meaningful. */
  datatype Result<+T, +E> = Success(value: T) | Failure(error: E)
}
