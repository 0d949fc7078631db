/** Option and Outcome values for the results the scripts return or raise. */
module Wrappers {

  /** A value or nothing, as Python's `None` return. */
  datatype Option<+T> = None | Some(value: T)

  /** Success or a failure carrying an error, as a function that returns or raises. */
  datatype Result<+R, +E> = Success(value: R) | Failure(error: E)

  /** A check that passes or fails with an error and carries no value. */
  datatype Outcome<+E> = Pass | Fail(error: E)
}
