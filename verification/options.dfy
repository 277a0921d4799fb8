/** An optional value: the outcome of a scan that may or may not convert anything. */
module Options {

  datatype Option<+T> = None | Some(value: T) {

    /** The carried value, or `default` when there is none: the C idiom of
        initialising a variable and letting `sscanf` overwrite it on success. */
    function GetOr(default: T): (r: T)
      ensures Some? ==> r == value
      ensures None? ==> r == default
    {
      match this
      case Some(v) => v
      case None => default
    }
  }
}
