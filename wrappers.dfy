/**
 * Optional values, standing for the places where the pipeline uses
 * `None` (or an absent attribute) as a value.
 */
module Wrappers {

  datatype Option<+T> = None | Some(value: T) {

    /** The carried value, or `default` when there is none. */
    function GetOr(default: T): T
    {
      match this
      case Some(v) => v
      case None => default
    }
  }
}
