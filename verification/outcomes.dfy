/** Optional values and success/failure results used throughout the model. */
module Outcomes {

  /** A value that may be absent, as a nullable reference or `ulong?` is in C#. */
  datatype Option<+T> = None | Some(value: T)

  /** The result of an operation that either produces a value or fails with an error. */
  datatype Result<+R, +E> = Success(value: R) | Failure(error: E)
}
