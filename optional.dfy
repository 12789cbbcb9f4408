/** A value that may be missing: JavaScript's null/undefined, or NaN where a number was expected. */
module Optional {

  datatype Option<+T> = None | Some(value: T) {

    /** The value, or `default` when it is missing (the `x || 0` and `x ?? d` idioms). */
    function GetOr(default: T): T {
      match this
      case Some(v) => v
      case None => default
    }
  }
}
