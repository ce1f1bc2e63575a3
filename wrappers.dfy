/** Failure-compatible wrappers used across the model. */
module Wrappers {

  /** A value that may be SQL NULL / Python None. */
  datatype Option<+T> = None | Some(value: T)

  /** The outcome of an operation that may raise. */
  datatype Result<+T, +E> = Ok(value: T) | Err(error: E)
}
