/** The Option datatype used wherever the source returns `null`, `undefined` or a value. */
module Wrappers {

  datatype Option<+T> = None | Some(value: T) {

    /** Returns the value in Some, or `default` for None. */
    function GetOr(default: T): T {
      match this
      case Some(v) => v
      case None => default
    }
  }

  /** A value together with the external requests, in order, that computing it issued. */
  datatype Traced<+T, +R> = Traced(value: T, calls: seq<R>)
}
