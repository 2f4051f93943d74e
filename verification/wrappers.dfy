/** Failure-carrying result types used throughout the model. */
module Wrappers {

  /** A value that may be absent: a regex match object or `None`. */
  datatype Option<+T> = None | Some(value: T)

  /** The outcome of a computation that may raise. */
  datatype Result<+T, +E> = Success(value: T) | Failure(error: E)
}
