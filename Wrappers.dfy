/** Optional values, used where the program raises on a missing or malformed value. */
module Wrappers {
  datatype Option<T> = None | Some(value: T)
}
