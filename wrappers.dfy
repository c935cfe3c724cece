/** Optional values and results with an error case, shared by the other modules. */
module Wrappers {

  /** A value that may be absent: a missing document field, a `NaN` number. */
  datatype Option<+T> = None | Some(value: T)

  /** The outcome of a check that either yields a value or names the first failure. */
  datatype Result<+T, +E> = Ok(value: T) | Err(error: E)
}
