/** The optional-value datatype used for the nullable fields of the address
    record and of the host's bound parameter (TypeScript's `string | null`). */
module Wrappers {

  datatype Option<+T> = None | Some(value: T) {

    /** The wrapped value, or `default` when there is none. */
    function GetOr(default: T): T {
      match this
      case Some(v) => v
      case None => default
    }
  }
}
