/** Optional values: `None` stands for JavaScript's `null`/`undefined`. */
module Wrappers {

  datatype Option<+T> = None | Some(value: T) {

    /** The value, or `default` when there is none (the `x || d` idiom on a non-empty string) */
    function GetOr(default: T): T {
      match this
      case Some(v) => v
      case None => default
    }
  }
}
