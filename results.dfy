/** Failure-carrying wrappers used across the model. */
module Results {

  datatype Option<+T> = None | Some(value: T)

  /** The outcome of an operation that the source runs as a promise: it resolves
      with a value or rejects with an error. */
  datatype Result<+T, +E> = Success(value: T) | Failure(error: E)
}
