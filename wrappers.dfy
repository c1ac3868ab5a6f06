/** The optional value used throughout the model: JavaScript's `undefined`/`null`
    for an absent field, and NaN for a date that does not parse. */
module Wrappers {

  datatype Option<+T> = None | Some(value: T) {

    /** The value, or `default` when absent. */
    function GetOr(default: T): T {
      match this
      case Some(v) => v
      case None => default
    }
  }
}
