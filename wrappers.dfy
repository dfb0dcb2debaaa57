/** Failure-carrying values standing for Python's `None` and for raised exceptions. */
module Wrappers {

  /** An optional value: Python's `Optional[T]`, `None` or a value. */
  datatype Option<+T> = None | Some(value: T)

  /** The outcome of an operation that either returns a value or raises an error. */
  datatype Result<+T, +E> = Ok(value: T) | Err(error: E)
}
