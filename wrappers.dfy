/** The conventional Some/None datatype, used where the JavaScript source
    has a value that may be `undefined` or otherwise falsy. */
module Wrappers {

  datatype Option<+T> = None | Some(value: T) {

    /** The encapsulated value, or `default` when there is none (`x || default`). */
    function GetOr(default: T): T
    {
      match this
      case Some(v) => v
      case None => default
    }
  }
}
