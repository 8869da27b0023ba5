/** Optional value, used where a lookup may find nothing. */
module Wrappers {

  /** `None` plays the part of JavaScript's `undefined` for a missing property. */
  datatype Option<+T> = None | Some(value: T)
}
