/** Optional values and results with an error, as used by the rest of the model. */
module Wrappers {

  datatype Option<+T> = None | Some(value: T)

  /** The outcome of an operation that raises an exception in the source:
      `Failure` carries what the exception reports. */
  datatype Result<+R, +E> = Success(value: R) | Failure(error: E)
}
