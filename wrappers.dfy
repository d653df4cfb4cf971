/** Failure-compatible values shared by every module: Python's `None` and raised exceptions. */
module Wrappers {

  /** A value that may be absent (Python's `None`). */
  datatype Option<T> = None | Some(value: T)

  /** The outcome of an operation that may raise; the error carries the exception's message. */
  datatype Result<T> = Ok(value: T) | Err(error: string)
}
