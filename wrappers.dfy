/** Option and Result, the two failure-carrying datatypes the model uses. */
module Wrappers {

  /** A value that may be missing; stands for a Go pointer or selection that may be nil. */
  datatype Option<+T> = None | Some(value: T)

  /** A Go `(value, error)` pair where exactly one side is meaningful. */
  datatype Result<+R, +E> = Ok(value: R) | Err(error: E)
}
