/** Optional values, for Python's `None` and the session keys that may be unset. */
module Wrappers {
  datatype Option<+T> = None | Some(value: T)
}
