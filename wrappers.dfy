/** Optional values, standing in for the C library's NULL / -1 "no value" returns. */
module Wrappers {
  datatype Option<+T> = None | Some(value: T)
}
