/** An optional value: a Ruby `nil`, a JavaScript `null` or `undefined`, or a missing entry. */
module Optional {

  datatype Option<+T> = None | Some(value: T) {
    function GetOr(default: T): T {
      match this
      case Some(v) => v
      case None => default
    }
  }
}
