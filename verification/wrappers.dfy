/** An optional value: used for dialog answers (a cancelled prompt is None)
    and for notices shown to the user. */
module Wrappers {

  datatype Option<+T> = None | Some(value: T) {

    /** The value held in Some, or the given default when None (the `??` operator). */
    function GetOr(default: T): (r: T)
      ensures Some? ==> r == value
      ensures None? ==> r == default
    {
      match this
      case Some(v) => v
      case None => default
    }
  }
}
