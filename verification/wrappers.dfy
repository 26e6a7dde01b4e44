/** Option and Result datatypes used by the controller model. */
module Wrappers {

  /** An optional value: a request field that may be absent or null. */
  datatype Option<+T> = None | Some(value: T) {

    /** The wrapped value, or `default` when there is none. */
    function GetOr(default: T): (r: T)
      ensures Some? ==> r == value
      ensures None? ==> r == default
    {
      match this
      case Some(v) => v
      case None => default
    }
  }

  /** Either a successful value or an error. */
  datatype Result<+R, +E> = Success(value: R) | Failure(error: E)
}
