/** Values shared by every module: the optional value used both for SQL NULL
    columns and for PHP's nullable (`?string`, `?int`) parameters. */
module Common {

  datatype Option<+T> = None | Some(value: T) {

    /** The value if present, otherwise the given default. */
    function GetOr(default: T): T {
      match this
      case Some(v) => v
      case None => default
    }
  }
}
