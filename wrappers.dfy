/** Optional values and results with an error, used across the model. */
module Wrappers {

  /** A value that may be absent (Python's `None`). */
  datatype Option<+T> = None | Some(value: T)

  /** The result of a computation that may raise an error. */
  datatype Result<+R, +E> = Ok(value: R) | Err(error: E)
}
