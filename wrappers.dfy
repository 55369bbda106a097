/** The optional value used for table lookups (`map[ch] ?? ch`) and for optional fields. */
module Wrappers {
  datatype Option<+T> = None | Some(value: T) {
    /** The value if present, otherwise `default` (JavaScript's `??`). */
    function GetOr(default: T): T {
      match this
      case Some(v) => v
      case None => default
    }
  }
}
