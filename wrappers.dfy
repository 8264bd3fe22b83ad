/** Plain option and result types shared by the model. */
module Wrappers {

  datatype Option<+T> = None | Some(value: T)

  /** The value of a call that either succeeds or throws the named exception. */
  datatype Result<+R, +E> = Success(value: R) | Failure(error: E)
}
