/** Failure-compatible result types used to model the exceptions of the crawler. */
module Wrappers {

  datatype Option<+T> = None | Some(value: T)

  /** A computed value, or the exception that the Python code raises instead. */
  datatype Result<+R, +E> = Success(value: R) | Failure(error: E)

  /** Normal return, or an exception that propagates to the caller. */
  datatype Outcome<+E> = Pass | Fail(error: E)
}
