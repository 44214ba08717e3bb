/** Optional values and success-or-error results, used for every lookup and
    every controller answer in the model. */
module Wrappers {

  datatype Option<+T> = None | Some(value: T) {

    /** The wrapped value, or `default` when there is none. */
    function GetOr(default: T): T {
      match this
      case Some(v) => v
      case None => default
    }
  }

  /** `Ok` is a 200 answer with its body; `Err` carries the rejection reason. */
  datatype Result<+T, +E> = Ok(value: T) | Err(error: E)
}
