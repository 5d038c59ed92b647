/** Optional values: an absent DOM element or attribute, a missing
    localStorage entry, or a parseInt that yields NaN. */
module Wrappers {

  datatype Option<+T> = None | Some(value: T) {

    /** The wrapped value, or `default` when there is none. */
    function GetOr(default: T): T {
      match this
      case Some(v) => v
      case None => default
    }
  }
}
