/** Failure-carrying result types shared by the whole model. */
module Wrappers {

  /** A value that may be absent: a missing row, a nullable column, no match. */
  datatype Option<+T> = None | Some(value: T)

  /** The outcome of an operation that can be refused with an error. */
  datatype Result<+T, +E> = Ok(value: T) | Err(error: E)
}
