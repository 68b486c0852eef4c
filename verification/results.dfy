/** Failure-carrying values shared by the model: an optional value (Python's
    `None` or a value) and the outcome of a validation (a value or an error). */
module Results {

  /** A value that may be absent, as Python's `None` or a value. */
  datatype Option<+T> = None | Some(value: T) {

    /** The carried value, or `default` when absent. */
    function GetOr(default: T): T {
      match this
      case Some(v) => v
      case None => default
    }
  }

  /** A validated value or the error that rejected it. */
  datatype Result<+T, +E> = Ok(value: T) | Err(error: E)
}
