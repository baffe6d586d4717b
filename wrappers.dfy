/** Failure-carrying results: the model's stand-in for Ruby's raised exceptions. */
module Wrappers {

  datatype Option<+T> = None | Some(value: T)

  /** A computation that yields a value or fails with an error. */
  datatype Result<+R, +E> = Success(value: R) | Failure(error: E)

  /** A check that either passes or fails with an error (no value). */
  datatype Outcome<+E> = Pass | Fail(error: E)
}
