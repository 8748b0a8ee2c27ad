/** Small wrapper types shared by the model: a nullable value and an outcome that is
    either a value or an error. */
module Common {

  /** A nullable column or an optional field: `None` stands for SQL NULL / `undefined`. */
  datatype Option<+T> = None | Some(value: T)

  /** The outcome of a handler that may throw: `Failure` carries the error it throws. */
  datatype Result<+T, +E> = Success(value: T) | Failure(error: E)
}
