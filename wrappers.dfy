/** Optional values, used for request fields that may be absent and for lookups that may miss. */
module Wrappers {
  datatype Option<+T> = None | Some(value: T)
}
