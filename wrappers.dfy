/** Optional values and results with an error, as used throughout the model. */
module Wrappers {

  /** A value that may be absent (JavaScript's `undefined`/`null`). */
  datatype Option<+T> = None | Some(value: T)

  /** The value of a computation, or the error it threw. */
  datatype Result<+T, +E> = Ok(value: T) | Err(error: E)
}
