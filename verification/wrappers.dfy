/** Optional values: the model's stand-in for Objective-C's `nil`. */
module Wrappers {

  /** `None` plays the role of `nil`; `Some(v)` is a non-nil reference or value. */
  datatype Option<+T> = None | Some(value: T) {

    /** Returns the wrapped value, or `default` when this is `None`. */
    function GetOr(default: T): (r: T)
      ensures Some? ==> r == value
      ensures None? ==> r == default
    {
      match this
      case Some(v) => v
      case None => default
    }
  }
}
