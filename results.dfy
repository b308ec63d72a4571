/** Failure-compatible wrappers for the exceptions and null returns of the source. */
module Results {

  /** A possibly absent value: the model of a Java reference that may be null. */
  datatype Option<+T> = None | Some(value: T)

  /** Either a value or the error that the source raises instead of returning. */
  datatype Result<+T, +E> = Success(value: T) | Failure(error: E)
}
