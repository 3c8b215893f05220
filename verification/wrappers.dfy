/** The optional value used wherever the modelled program can produce "no value":
    JavaScript's `NaN` out of `parseInt`, an absent optional field, a query
    that has not delivered its first snapshot. */
module Wrappers {

  datatype Option<+T> = None | Some(value: T) {

    /** The carried value, or `default` when there is none. */
    function GetOr(default: T): (r: T)
      ensures Some? ==> r == value
      ensures None? ==> r == default
    {
      match this
      case Some(v) => v
      case None => default
    }
  }
}
