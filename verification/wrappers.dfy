/** The optional-value datatype used wherever the source has `null`/`undefined`, and the
    outcome of a call that may throw. */
module Wrappers {

  datatype Option<+T> = None | Some(value: T) {

    /** Returns the value held in Some, or `default` for None. */
    function GetOr(default: T): T {
      match this
      case Some(v) => v
      case None => default
    }
  }

  /** A call that returns `value`, or throws an error described by `error`. */
  datatype Result<+T> = Success(value: T) | Failure(error: string)
}
