/** Option and Result, the two failure-carrying wrappers the model uses for
    values that may be absent (a missing header, a missing query parameter,
    a null join) and for store queries that may fail. */
module Wrappers {

  datatype Option<+T> = None | Some(value: T) {

    /** The wrapped value, or `default` when there is none. */
    function GetOr(default: T): T {
      match this
      case Some(v) => v
      case None => default
    }
  }

  datatype Result<+R, +E> = Success(value: R) | Failure(error: E)
}
