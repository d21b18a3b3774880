/** Option, the failure-carrying datatype the model needs. */
module Wrappers {

  /** A value that may be absent; stands for JavaScript's `T | null`. */
  datatype Option<+T> = None | Some(value: T) {
    function GetOr(default: T): T {
      match this
      case Some(v) => v
      case None => default
    }
  }
}
