/** Optional values: JavaScript's `null`/`undefined` and the "no match" results of the
    source's lookups and regular expressions. */
module Wrappers {

  datatype Option<+T> = None | Some(value: T) {

    /** The value, or `default` when absent (the source's `x || default` on a present, truthy value). */
    function GetOr(default: T): T {
      match this
      case Some(v) => v
      case None => default
    }
  }
}
