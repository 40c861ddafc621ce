/** Results shared by several models. */
module Wrappers {

  datatype Option<+T> = None | Some(value: T) {
    function GetOr(default_: T): T {
      if Some? then value else default_
    }
  }

  /** A value, an error the caller sees, or a failed release-mode assertion. */
  datatype Outcome<+T> = Done(value: T) | Rejected | Crashed
}
