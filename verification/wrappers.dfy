/** Failure-carrying wrappers used to model Go's `(value, error)` returns. */
module Wrappers {

  /** A value that may be missing (a document that is not there, a parse that fails). */
  datatype Option<+T> = None | Some(value: T)

  /** Either a value or the error that took its place. */
  datatype Result<+R, +E> = Success(value: R) | Failure(error: E)

  /** The outcome of an action that returns only an error. */
  datatype Outcome<+E> = Pass | Fail(error: E)
}
