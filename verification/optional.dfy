/** An optional value: the model's stand-in for a JavaScript field that may be
    `undefined` or a result that may be `null`. */
module Optional {

  datatype Option<+T> = None | Some(value: T) {

    /** The wrapped value, or `default` when there is none. */
    function GetOr(default: T): T {
      match this
      case Some(v) => v
      case None => default
    }
  }
}
