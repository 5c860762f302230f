/** An optional value: a dictionary key that may be absent, a regular
    expression group that may not have matched. */
module Wrappers {

  datatype Option<+T> = None | Some(value: T) {

    function GetOr(default: T): T {
      match this
      case Some(v) => v
      case None => default
    }

    /** `dict.setdefault`: keep the value already there, else take `other`. */
    function OrElse(other: Option<T>): Option<T> {
      if Some? then this else other
    }
  }
}
