/** Optional values, used for parse results that may fail. */
module Wrappers {
  datatype Option<+T> = None | Some(value: T)
}
