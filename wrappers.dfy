/** Failure-carrying result types shared by the loaders and the converter. */
module Wrappers {

  /** A value that may be absent: Python's `None` or a returned value. */
  datatype Option<+T> = None | Some(value: T)

  /** The outcome of an operation that raises on bad input. */
  datatype Result<+T, +E> = Ok(value: T) | Err(error: E)
}
