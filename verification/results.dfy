/** Failure-carrying values used throughout the model.
    The modelled Java code signals errors by throwing; each exception class it
    throws becomes one constructor of `Failure`, and a Java `null` argument or
    field becomes `None`. */
module Results {

  /** The exception classes the modelled code throws. */
  datatype Failure = NullPointer | IllegalArgument | IllegalState

  /** A value that may be absent (Java `null`). */
  datatype Option<+T> = None | Some(value: T) {

    /** The value, or `default` when absent. */
    function GetOr(default: T): T {
      match this
      case Some(v) => v
      case None => default
    }
  }

  /** Either a computed value or the exception the source would throw. */
  datatype Result<+T> = Ok(value: T) | Err(error: Failure)
}
