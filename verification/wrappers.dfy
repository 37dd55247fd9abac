/** Optional values. In this model `None` stands for JavaScript's `undefined`:
    a missing array element after `split`, or a missing field of a device record. */
module Wrappers {

  datatype Option<+T> = None | Some(value: T) {

    /** The value, or the given default when there is none. */
    function GetOr(default: T): T {
      match this
      case Some(v) => v
      case None => default
    }
  }
}
