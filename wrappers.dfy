/** Optional values: a field that may be missing, a value Python may leave as `None`. */
module Wrappers {
  datatype Option<+T> = None | Some(value: T)
}
