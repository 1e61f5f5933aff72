/** Failure-carrying values used in place of Python exceptions. */
module Wrappers {

  datatype Option<+T> = None | Some(value: T)

  /** The value of a call that either returns normally or raises `error`. */
  datatype Result<+R, +E> = Success(value: R) | Failure(error: E)

  /** The outcome of a call that returns nothing on success (a property setter). */
  datatype Outcome<+E> = Pass | Fail(error: E)
}
