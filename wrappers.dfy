/** The optional value used wherever the source returns `None`. */
module Wrappers {

  datatype Option<T> = None | Some(value: T) {

    /** The wrapped value, or `default` for None (Python's `x or default`). */
    function GetOr(default: T): (r: T) {
      if Some? then value else default
    }
  }
}
