/** Optional values, standing in for Python's `None` and for lookups that raise. */
module Wrappers {
  datatype Option<+T> = None | Some(value: T)
}
