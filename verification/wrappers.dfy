/** Failure-compatible datatypes shared by the scheduler and the HTTP layer. */
module Wrappers {

  /** A value that may be absent: JavaScript's `null`/`undefined` next to a value. */
  datatype Option<+T> = None | Some(value: T)

  /** The two ways a request can settle before the interceptors see it. */
  datatype Result<+R, +E> = Success(value: R) | Failure(error: E)
}
