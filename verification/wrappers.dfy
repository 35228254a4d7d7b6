/** Failure-carrying datatypes shared by the whole model. */
module Wrappers {

  /** A value that may be absent (Python's `None` where a value is optional). */
  datatype Option<+T> = None | Some(value: T)

  /** The outcome of an operation that may raise: `Ok` carries the return
      value, `Err` carries the exception that escaped. */
  datatype Result<+T, +E> = Ok(value: T) | Err(error: E)
}
