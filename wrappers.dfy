/** The optional value used wherever the scripts return `None` or a value. */
module Wrappers {

  datatype Option<+T> = None | Some(value: T) {

    /** The value, or `default` when there is none. */
    function GetOr(default: T): T {
      match this
      case Some(v) => v
      case None => default
    }

    /** The first of `this` and `other` that holds a value: Python's `a or b`
        for a pair of optional results. */
    function OrElse(other: Option<T>): Option<T> {
      if Some? then this else other
    }
  }
}
