/** Option and Result, the two failure-carrying shapes the model needs. */
module Wrappers {

  /** An optional value: a JSON field that may be absent, a lookup that may fail. */
  datatype Option<+T> = None | Some(value: T) {

    /** The value, or `default` when there is none (Python's `d.get(k, default)`). */
    function GetOr(default: T): T {
      match this
      case Some(v) => v
      case None => default
    }
  }

  /** A value, or the error a Python call would have raised instead. */
  datatype Result<+R, +E> = Success(value: R) | Failure(error: E)
}
