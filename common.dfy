/** Option and Result, the two wrappers the models use for absent values and error paths. */
module Common {

  datatype Option<T> = None | Some(value: T) {
    /** `d.get(key, default)`: the value when present, otherwise the default */
    function GetOr(default: T): T
    {
      match this
      case Some(v) => v
      case None => default
    }
  }

  /** The outcome of a call that may raise: the value, or the exception's message. */
  datatype Result<T, E> = Success(value: T) | Failure(error: E)
}
