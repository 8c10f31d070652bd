/** Optional values, the counterpart of Rust's `Option<T>`. */
module Wrappers {

  datatype Option<+T> = None | Some(value: T) {

    /** Returns the value held in `Some`, or `default` for `None` (Rust's `unwrap_or`). */
    function UnwrapOr(default: T): (r: T)
      ensures Some? ==> r == value
      ensures None? ==> r == default
    {
      match this
      case Some(v) => v
      case None => default
    }
  }
}
