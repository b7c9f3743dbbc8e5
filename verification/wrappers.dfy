/** Failure-carrying values: `Option` for Python's `None`-or-value returns and
    `Result` for computations that can raise. */
module Wrappers {

  datatype Option<+T> = None | Some(value: T) {

    /** The value, or `default` for `None` (Python's `d.get(k, default)`). */
    function GetOr(default: T): T {
      match this
      case Some(v) => v
      case None => default
    }
  }

  /** `Failure` carries the text of the exception the source would raise. */
  datatype Result<+R> = Success(value: R) | Failure(error: string)
}
