/** Failure-carrying values shared by the model. */
module Wrappers {

  /** A value that may be absent. */
  datatype Option<+T> = None | Some(value: T)

  /** Either a computed value or the reason the operation was refused. */
  datatype Result<+R, +E> = Success(value: R) | Failure(error: E)
}
