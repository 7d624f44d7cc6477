/** Failure-carrying values: Python's `None` and raised exceptions become
    explicit `Option` and `Result` values in this model. */
module Results {

  /** A value that may be absent. */
  datatype Option<+T> = None | Some(value: T)

  /** The outcome of an operation that may raise: a value or an error. */
  datatype Result<+R, +E> = Success(value: R) | Failure(error: E)
}
