/** Failure-carrying datatypes standing in for JavaScript's `null`, `undefined` and exceptions. */
module Wrappers {

  datatype Option<+T> = None | Some(value: T)

  /** A computation that either produces a value or throws. */
  datatype Result<+T, +E> = Ok(value: T) | Err(error: E)

  /** A computation with no value that either completes or throws. */
  datatype Outcome<+E> = Pass | Fail(error: E)
}
