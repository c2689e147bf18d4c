/** A value that may be absent, standing for JavaScript's `null`/`undefined`. */
module Wrappers {

  datatype Option<+T> = None | Some(value: T) {

    /** Reads an absent value as `fallback`. */
    function GetOr(fallback: T): T {
      if Some? then value else fallback
    }
  }
}
