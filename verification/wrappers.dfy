/** Optional values, standing in for the nullable references of the modelled code, and results
    that carry either a value or the error that was thrown instead. */
module Wrappers {

  /** `None` plays the role of a null reference. */
  datatype Option<+T> = None | Some(value: T) {

    /** The value, or `default` when there is none (the `??` operator). */
    function GetOr(default: T): T {
      match this
      case Some(v) => v
      case None => default
    }
  }

  /** A computation that either returns `value` or throws `error`. */
  datatype Result<+T, +E> = Success(value: T) | Failure(error: E)
}
