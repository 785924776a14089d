/** Failure-carrying result types shared by the modules of this model. */
module Wrappers {

  datatype Option<+T> = None | Some(value: T)

  datatype Result<+R, +E> = Success(value: R) | Failure(error: E)

  /** A result that carries no value on success. */
  datatype Outcome<+E> = Pass | Fail(error: E)
}
