/** Absent-value and error-carrying results used by the triage engine. */
module Wrappers {

  /** A value that may be missing: Java's `null` return of `peek`/`poll`, or a `null` argument. */
  datatype Option<+T> = None | Some(value: T)

  /** The outcome of an operation that may fail with a validation error. */
  datatype Result<+R, +E> = Success(value: R) | Failure(error: E)
}
