/** Optional values, used for "no file in the request" and for decoding URLs. */
module Wrappers {
  datatype Option<+T> = None | Some(value: T)
}
