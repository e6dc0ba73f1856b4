/** The Option type used wherever the scripts return `None` or fall back to a default. */
module Wrappers {

  /** `None` stands for Python's `None` (or a missing key); `Some(v)` for a present value. */
  datatype Option<+T> = None | Some(value: T) {

    /** The value, or `default` when there is none (Python's `d.get(k, default)`). */
    function GetOr(default: T): T {
      match this
      case Some(v) => v
      case None => default
    }
  }
}
