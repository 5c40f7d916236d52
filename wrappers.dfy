/** Failure-carrying wrappers used across the model. */
module Wrappers {

  /** A value that may be absent: the result of one decoder read. */
  datatype Option<+T> = None | Some(value: T)

  /** Either a value or the error that stopped the computation. */
  datatype Result<+T, +E> = Success(value: T) | Failure(error: E)
}
