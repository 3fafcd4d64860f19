/** Success/failure values used where the Go code returns `(value, error)` or a nilable pointer. */
module Wrappers {

  /** A value that may be absent (a nil pointer in the Go code). */
  datatype Option<+T> = None | Some(value: T)

  /** Either a value or an error, as a Go function returning `(T, error)`. */
  datatype Result<+T, +E> = Ok(value: T) | Err(error: E)
}
