/** Option, Result and Outcome: the model's stand-ins for Swift optionals and `throws`. */
module Wrappers {

  datatype Option<+T> = None | Some(value: T) {
    /** Swift's `??`: the wrapped value, or the default when there is none. */
    function GetOr(default: T): T {
      match this
      case Some(v) => v
      case None => default
    }
  }

  /** The value of a throwing call that returns something. */
  datatype Result<+R, +E> = Success(value: R) | Failure(error: E)

  /** The outcome of a throwing call that returns nothing. */
  datatype Outcome<+E> = Pass | Fail(error: E)
}
