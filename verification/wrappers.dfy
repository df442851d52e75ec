/** Failure-carrying wrappers shared by the whole model. */
module Wrappers {

  /** Stands in for a Go value that may be nil. */
  datatype Option<+T> = None | Some(value: T)

  /** A Go `(value, error)` pair where exactly one side is meaningful. */
  datatype Result<+T, +E> = Ok(value: T) | Err(error: E)
}
