/** The optional value used wherever the bot reads a value that may be absent:
    a missing dictionary key, a `None` returned by a helper, an element a
    selector did not find. */
module Wrappers {
  datatype Option<+T> = None | Some(value: T) {
    /** The value if present, otherwise `default` (Python's `d.get(k, default)`). */
    function GetOr(default: T): T {
      match this
      case Some(v) => v
      case None => default
    }
  }
}
