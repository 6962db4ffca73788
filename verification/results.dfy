/** Failure-carrying values used across the model in place of Python's None and raised exceptions. */
module Results {

  /** A value that may be absent (Python's `None`). */
  datatype Option<T> = None | Some(value: T) {

    /** The carried value, or `default` when absent (Python's `d.get(k, default)`). */
    function GetOr(default: T): T
    {
      match this
      case Some(v) => v
      case None => default
    }
  }

  /** The outcome of an operation that the source ends by raising an exception. */
  datatype Result<T, E> = Ok(value: T) | Err(error: E)
}
