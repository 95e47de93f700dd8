/** The optional value returned by the application's dialogs and selection lookups. */
module Wrappers {

  /** `None` is a cancelled dialog or an empty selection; `Some(v)` carries the answer. */
  datatype Option<+T> = None | Some(value: T) {

    /** The carried value, or `default` when there is none. */
    function GetOr(default: T): T {
      match this
      case Some(v) => v
      case None => default
    }
  }
}
