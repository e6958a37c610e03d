/** Optional values, used for a property that may be missing and for a parse that may fail. */
module Wrappers {
  datatype Option<+T> = None | Some(value: T)
}
