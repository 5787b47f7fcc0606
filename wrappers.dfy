/** Optional values: Ruby's `nil` where the source may produce one. */
module Wrappers {
  datatype Option<+T> = None | Some(value: T) {
    /** The value, or `default` for None (Ruby's `x || default`). */
    function GetOr(default: T): T {
      match this
      case Some(v) => v
      case None => default
    }
  }
}
