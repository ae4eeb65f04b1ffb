/** Failure-compatible result types shared by the two utilities. */
module Wrappers {

  /** A value that may be absent. */
  datatype Option<+T> = None | Some(value: T)

  /** Either a value or the error that replaced it (a raised exception). */
  datatype Result<+T, +E> = Success(value: T) | Failure(error: E)
}
