/** Optional values and success/failure results used throughout the model. */
module Wrappers {

  /** A value that may be absent; `None` also stands for a pandas NA cell. */
  datatype Option<+T> = None | Some(value: T)

  /** The outcome of an operation that may raise: `Err` carries the exception. */
  datatype Result<+T, +E> = Ok(value: T) | Err(error: E)
}
