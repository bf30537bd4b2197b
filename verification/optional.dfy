/** Failure-compatible wrappers shared by every module: `Option` models a
    JavaScript value that may be `undefined`, `Result` an operation that can
    reject its input or throw. */
module Optional {

  datatype Option<+T> = None | Some(value: T) {

    /** Returns the wrapped value, or `default` when there is none (the
        source's `x ?? default`). */
    function GetOr(default: T): T {
      match this
      case Some(v) => v
      case None => default
    }
  }

  datatype Result<+R, +E> = Success(value: R) | Failure(error: E)
}
