/** Failure-carrying values used where the source raises an exception or returns None. */
module Wrappers {

  /** A value that may be absent (Python's `None`, or a missing dictionary key). */
  datatype Option<T> = None | Some(value: T)

  /** The result of an operation that either returns a value or raises. */
  datatype Result<T> = Ok(value: T) | Raised(message: string)

  /** The result of an operation whose return value nobody uses: it completes or it raises. */
  datatype Outcome = Pass | Fail(message: string)
}
