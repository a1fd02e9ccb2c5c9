/** Option and Result, the model's stand-ins for Java's null references and thrown exceptions. */
module Results {

  /** A possibly-null reference: `None` plays the role of Java's `null`. */
  datatype Option<+T> = None | Some(value: T)

  /** The outcome of a call that may throw: `Failure` carries the exception. */
  datatype Result<+T, +E> = Success(value: T) | Failure(error: E)
}
