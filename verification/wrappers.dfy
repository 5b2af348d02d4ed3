/** The absence value the script uses everywhere (`None` in Python). */
module Wrappers {

  datatype Option<+T> = None | Some(value: T) {

    /** Python's `dict.get(key, default)` on an optional JSON member: the member when present, `default` otherwise. */
    function GetOr(default: T): T {
      if Some? then value else default
    }
  }
}
