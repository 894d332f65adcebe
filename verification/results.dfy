/**
 * Failure-carrying values used throughout the model: `Option` for the
 * Java `null` returns ("no such thing") and `Result` for the exceptions a
 * call can raise.
 */
module Results {

  /** A value that may be absent; stands for a nullable Java reference. */
  datatype Option<+T> = None | Some(value: T)

  /** Either a computed value or the error that the Java code would throw. */
  datatype Result<+T, +E> = Success(value: T) | Failure(error: E)
}
