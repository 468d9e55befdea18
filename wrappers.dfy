/** Optional values and error-carrying results shared by the model. */
module Wrappers {

  /** A value that may be absent: an empty cell, or a missing value in a parsed record. */
  datatype Option<+T> = None | Some(value: T)

  /** The outcome of an operation that may refuse its input. */
  datatype Result<+R, +E> = Success(value: R) | Failure(error: E)
}
