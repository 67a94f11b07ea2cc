/** Optional values and the outcome of a request. */
module Wrappers {

  /** A value that may be absent (Python's `None`, SQL's NULL). */
  datatype Option<+T> = None | Some(value: T)

  /** The outcome of an operation that can fail with an error response. */
  datatype Result<+R, +E> = Ok(value: R) | Err(error: E)
}
