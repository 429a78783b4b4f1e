/** Optional values: a missing or null field is `None`. */
module Wrappers {
  datatype Option<+T> = None | Some(value: T)
}
