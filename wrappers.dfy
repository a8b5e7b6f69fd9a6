/** Failure-carrying result types shared by every module of the model. */
module Wrappers {

  /** std::optional: an absent value or one value. */
  datatype Option<+T> = None | Some(value: T)

  /** A computation that either produced a value or raised an error. */
  datatype Result<+R, +E> = Success(value: R) | Failure(error: E)

  /** A computation without a value that either passed or raised an error. */
  datatype Outcome<+E> = Pass | Fail(error: E)
}
