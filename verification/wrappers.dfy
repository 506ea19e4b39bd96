/** Optional values and results shared by every module of the model. */
module Wrappers {

  /** A value that may be missing: Go's nil map, or a nil `error`. */
  datatype Option<+T> = None | Some(value: T)

  /** Either a value or an error, for helpers that do not mirror a Go (value, error) pair. */
  datatype Result<+T, +E> = Ok(value: T) | Err(error: E)
}
