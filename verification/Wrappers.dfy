/** Optional values, for the source's undefined and null. */
module Wrappers {
  datatype Option<+T> = None | Some(value: T) {
    /** `x ?? default` */
    function UnwrapOr(default: T): T {
      match this
      case Some(v) => v
      case None => default
    }
  }
}
