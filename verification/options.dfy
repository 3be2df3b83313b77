/** A value that may be absent: a request parameter that was not sent, a
    session key that is unset, a navigation link that is not shown. */
module Options {

  datatype Option<+T> = None | Some(value: T) {

    /** The value, or `default` when absent (PHP's `??` operator). */
    function GetOr(default: T): T {
      match this
      case Some(v) => v
      case None => default
    }
  }
}
