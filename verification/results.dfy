/** Option, and Go's (value, error) pair held as one value. */
module Results {

  /** A value that may be missing: a nil URL, a failed parse. */
  datatype Option<+T> = None | Some(value: T)

  /** The `(value, error)` pair a Go function returns, as one value. */
  datatype Result<+T, +E> = Success(value: T) | Failure(error: E)
}
