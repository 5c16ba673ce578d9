/** Failure-compatible result types used throughout the model. */
module Wrappers {

  /** An optional value: the "no match" outcome of a pattern scan. */
  datatype Option<+T> = None | Some(value: T)

  /** Either a value or an error, standing in for Go's `(T, error)` pairs and panics. */
  datatype Result<+T, +E> = Ok(value: T) | Err(error: E)
}
