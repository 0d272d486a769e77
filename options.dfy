/** Python's `None`-or-value results (`re.search` returning a match or `None`,
    the `linkedin` field of the contact record). */
module Options {

  datatype Option<+T> = None | Some(value: T) {
    function GetOr(default: T): T {
      match this
      case Some(v) => v
      case None => default
    }
  }

  /** A Python call that either returns a value or raises an exception. */
  datatype Outcome<+T> = Returned(value: T) | Raised(exception: string)
}
