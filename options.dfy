/** The optional result of a scan or a decode. */
module Options {

  datatype Option<+T> = None | Some(value: T) {

    /** The value if present, else the given fallback (the target a failed scan leaves untouched). */
    function GetOr(fallback: T): T
    {
      match this
      case Some(v) => v
      case None => fallback
    }
  }
}
