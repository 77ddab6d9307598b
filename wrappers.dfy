/** Small helper datatypes shared by the other modules. */
module Wrappers {

  /** A value that may be absent: a missing field of a feed entry, a date the parser rejects. */
  datatype Option<T> = None | Some(value: T) {

    /** The value, or `default` when there is none. */
    function GetOr(default: T): T {
      match this
      case Some(v) => v
      case None => default
    }
  }
}
