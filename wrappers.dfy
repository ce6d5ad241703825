/** Missing values and failing computations. */
module Wrappers {

  /** A value that may be missing (pandas' None / NaN). */
  datatype Option<+T> = None | Some(value: T) {

    /** The value, or `default` when it is missing (pandas' fillna). */
    function GetOr(default: T): T {
      match this
      case Some(v) => v
      case None => default
    }
  }

  /** A computation that either produces a value or raises an exception. */
  datatype Result<+R, +E> = Ok(value: R) | Err(error: E)
}
