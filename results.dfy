/** Failure-carrying values used in place of the library's panics. */
module Results {

  /** An optional value, as returned by edge lookups. */
  datatype Option<+T> = None | Some(value: T) {
    /** The value, or `default` when there is none. */
    function GetOr(default: T): T {
      match this
      case Some(v) => v
      case None => default
    }
  }

  /** A value or the error that stopped the operation producing it. */
  datatype Result<+T, +E> = Ok(value: T) | Err(error: E)

  /** The outcome of an operation that produces nothing but may fail. */
  datatype Outcome<+E> = Pass | Fail(error: E)
}
