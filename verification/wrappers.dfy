/** The optional value used throughout the model for "absent" results: a
    column that is not found, an input line that is not accepted, a number
    that does not parse. */
module Wrappers {

  datatype Option<+T> = None | Some(value: T) {

    /** The wrapped value, or `default` when there is none. */
    function GetOr(default: T): T {
      match this
      case Some(v) => v
      case None => default
    }
  }
}
