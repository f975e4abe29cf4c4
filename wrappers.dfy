/** Optional values, for results a caller may not receive. */
module Wrappers {
  datatype Option<+T> = None | Some(value: T)
}
