/** Failure-carrying results used by the parser and the trip scan. */
module Wrappers {

  /** Python's `None` or a value. */
  datatype Option<+T> = None | Some(value: T)

  /** A value, or the exception that the script would raise instead. */
  datatype Result<+R, +E> = Success(value: R) | Failure(error: E)
}
