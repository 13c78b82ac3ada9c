/** The optional value used wherever the PHP code returns `null` or `false` in place of a result. */
module Wrappers {

  datatype Option<T> = None | Some(value: T) {

    /** The value, or `default` for None. */
    function GetOr(default: T): T {
      match this
      case Some(v) => v
      case None => default
    }
  }
}
