/** Optional values, for the C library calls that may fail to produce one. */
module Wrappers {
  datatype Option<+T> = None | Some(value: T)
}
