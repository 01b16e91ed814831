/** The optional values that the configuration reader hands back for a key
    that may be absent. */
module Wrappers {

  datatype Option<+T> = None | Some(value: T) {

    /** The value carried by Some, or the given default for None. */
    function GetOr(default: T): (r: T)
      ensures Some? ==> r == value
      ensures None? ==> r == default
    {
      match this
      case Some(v) => v
      case None => default
    }
  }
}
