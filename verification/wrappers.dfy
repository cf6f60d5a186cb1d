/** Failure-carrying result types shared by the modules of this model. */
module Wrappers {

  /** A value that may be missing: a failed search, a table miss. */
  datatype Option<+T> = None | Some(value: T)

  /** A value or the error that the computation raised instead. */
  datatype Result<+T, +E> = Success(value: T) | Failure(error: E)
}
