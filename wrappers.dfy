/** Result and outcome types standing in for the exceptions the source throws. */
module Wrappers {

  datatype Option<+T> = None | Some(value: T)

  /** A value, or the error that would have been thrown instead. */
  datatype Result<+R, +E> = Success(value: R) | Failure(error: E)

  /** The outcome of an operation that returns nothing (a `void` method that may throw). */
  datatype Outcome<+E> = Pass | Fail(error: E)
}
