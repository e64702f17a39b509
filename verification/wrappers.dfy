/** Option and Result types used for JavaScript's nullable values and for
    reducers that throw instead of returning a new state. */
module Wrappers {

  /** `None` stands for `null` / `undefined`. */
  datatype Option<+T> = None | Some(value: T) {

    /** The `??` operator: the held value, or `default` when there is none. */
    function GetOr(default: T): T {
      match this
      case Some(v) => v
      case None => default
    }
  }

  /** A reducer either produces the next state or throws an error. */
  datatype Result<+R, +E> = Success(value: R) | Failure(error: E)
}
