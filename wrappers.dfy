/** Optional values, standing for Kotlin's nullable references. */
module Wrappers {
  datatype Option<+T> = None | Some(value: T)
}
