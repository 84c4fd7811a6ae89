/** Option and Result values used for the error paths of the model. */
module Results {

  /** A value that may be missing, as a Python `None` return. */
  datatype Option<+T> = None | Some(value: T)

  /** The outcome of an operation that can raise: a value, or the error it raises. */
  datatype Result<+T, +E> = Success(value: T) | Failure(error: E)
}
