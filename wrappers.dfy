/** Option, Result and Outcome: the error values that stand for the source's
    thrown exceptions and for absent values. */
module Wrappers {

  datatype Option<+T> = None | Some(value: T)

  datatype Result<+T, +E> = Success(value: T) | Failure(error: E)

  /** The result of an operation that either completes or fails, and returns nothing. */
  datatype Outcome<+E> = Pass | Fail(error: E)
}
