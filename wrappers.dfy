/** Option, Result and Outcome: the error-carrying return values that stand
    for the exceptions the Python code raises. */
module Wrappers {

  datatype Option<+T> = None | Some(value: T)

  /** A value, or the exception that was raised instead of producing it. */
  datatype Result<+T, +E> = Success(value: T) | Failure(error: E)

  /** Completion of an operation that returns nothing, or the exception it raised. */
  datatype Outcome<+E> = Pass | Fail(error: E)
}
