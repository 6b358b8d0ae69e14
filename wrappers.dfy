/** Failure-carrying results used in place of the source's exceptions. */
module Wrappers {

  datatype Option<+T> = None | Some(value: T)

  /** The value of an operation, or the error it raised. */
  datatype Result<+R, +E> = Success(value: R) | Failure(error: E)

  /** The outcome of an operation that returns nothing (`None` in Python) or raises. */
  datatype Outcome<+E> = Pass | Fail(error: E)
}
