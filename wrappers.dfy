/** Optional values and results with an error, used across the model. */
module Wrappers {

  datatype Option<+T> = None | Some(value: T)

  /** The outcome of a handler: a value, or the error the handler reports. */
  datatype Result<+T, +E> = Ok(value: T) | Err(error: E)
}
