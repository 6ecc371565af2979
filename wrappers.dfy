/** Option and Result values used for Python's NaN and exceptions. */
module Wrappers {

  /** `None` stands for a missing value: a NaN coordinate, a failed parse. */
  datatype Option<+T> = None | Some(value: T)

  /** `Failure` stands for an exception the source raises. */
  datatype Result<+R, +E> = Success(value: R) | Failure(error: E)
}
