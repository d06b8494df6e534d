/** Optional values and results with an error kind, standing for Java's
    Optional and for the exceptions a precondition check raises. */
module Wrappers {

  /** Java's Optional: absent (None) or present with a value. */
  datatype Option<+T> = None | Some(value: T)

  /** The outcome of a call that either returns a value or fails with an error kind. */
  datatype Result<+T, +E> = Ok(value: T) | Err(error: E)
}
