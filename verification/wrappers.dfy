/** Failure-carrying values: `Option` for an absent value (a missing key, a
    NaN cell), `Result` for an operation that the program aborts with an
    exception and a logged message. */
module Wrappers {

  datatype Option<+T> = None | Some(value: T) {

    /** The encapsulated value, or `default` when there is none (Python's
        `dict.get(key, default)`). */
    function GetOr(default: T): T {
      match this
      case Some(v) => v
      case None => default
    }
  }

  datatype Result<+R, +E> = Success(value: R) | Failure(error: E)
}
