/** Option and Result, the two failure-carrying shapes the model uses. */
module Wrappers {

  /** A value that may be absent: a Java null, or an empty `Optional`. */
  datatype Option<+T> = None | Some(value: T)

  /** The outcome of an operation that either returns a value or fails with an error. */
  datatype Result<+R, +E> = Success(value: R) | Failure(error: E)
}
