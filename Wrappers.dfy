/** Optional values and results with an error, shared by the modules of the model. */
module Wrappers {

  /** A value that may be absent: a missing message field, or a NaN cell of a table. */
  datatype Option<+T> = None | Some(value: T)

  /** The outcome of an operation that can fail with an error of type E. */
  datatype Result<+T, +E> = Success(value: T) | Failure(error: E)
}
