/** Optional values, used for files that may or may not exist. */
module Wrappers {

  /** `None` stands for an absent file, `Some(text)` for a file holding `text`. */
  datatype Option<+T> = None | Some(value: T) {

    /** The value held, or `default` when there is none. */
    function GetOr(default: T): T {
      match this
      case Some(v) => v
      case None => default
    }
  }
}
