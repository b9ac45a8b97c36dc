/** Optional values and fallible results shared by the rest of the model. */
module Wrappers {

  /** A value that may be missing: an absent JSON field, a failed external call. */
  datatype Option<+T> = None | Some(value: T) {
    function GetOr(default: T): T {
      match this
      case Some(v) => v
      case None => default
    }
  }

  /** The outcome of a request handler: a response body, or the error message it sends with status 500. */
  datatype Result<+T> = Success(value: T) | Failure(error: string)
}
