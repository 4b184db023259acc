/** Optional values, used where the source has `None` or "not found". */
module Wrappers {
  datatype Option<+T> = None | Some(value: T)
}
