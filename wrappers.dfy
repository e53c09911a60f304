/** Option and Result: the absent value of an optional lookup, and the
    raise-or-return outcome of a validating function. */
module Wrappers {

  datatype Option<+T> = None | Some(value: T)

  /** A computation that either returns a value or fails with an error. */
  datatype Result<+R, +E> = Success(value: R) | Failure(error: E)
}
