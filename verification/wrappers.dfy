/** Failure-carrying result types shared by the other modules. */
module Wrappers {

  /** A value that may be absent, like Python's `None`. */
  datatype Option<+T> = None | Some(value: T)

  /** Either a computed value or the error that aborted the computation. */
  datatype Result<+T, +E> = Success(value: T) | Failure(error: E)
}
