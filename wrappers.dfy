/** Failure-carrying wrappers shared by the other modules. */
module Wrappers {

  /** An absent-or-present value. */
  datatype Option<+T> = None | Some(value: T)

  /** A value or an error, for the exception a call can throw. */
  datatype Result<+R, +E> = Success(value: R) | Failure(error: E)
}
