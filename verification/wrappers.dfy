/** The optional-value datatype used wherever the PHP code reads a value
    that may be absent (an unset request field, a missing configuration key,
    an unset environment variable). */
module Wrappers {

  datatype Option<+T> = None | Some(value: T) {

    /** The value, or `default` when absent. */
    function GetOr(default: T): (r: T)
      ensures Some? ==> r == value
      ensures None? ==> r == default
    {
      match this
      case Some(v) => v
      case None => default
    }
  }
}
