/** Plain value types for a possibly absent argument and for an operation
    that can fail. */
module Wrappers {

  /** A value that may be absent; `None` stands for a null reference. */
  datatype Option<+T> = None | Some(value: T)

  /** The outcome of an operation that either produces a value or fails. */
  datatype Result<+R, +E> = Success(value: R) | Failure(error: E)
}
