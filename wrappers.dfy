/** Failure-carrying results used in place of Go's `(value, error)` pairs and `error` returns. */
module Wrappers {

  /** A value that may be absent, e.g. the answer of a parser that can fail. */
  datatype Option<T> = None | Some(value: T)

  /** A value or an error, for Go functions that return `(T, error)`. */
  datatype Result<T, E> = Ok(value: T) | Err(error: E)

  /** The outcome of a Go function that returns only an `error`: `Pass` is a nil error. */
  datatype Outcome<E> = Pass | Fail(error: E)
}
