/** Optional values: a value that may be missing (JavaScript's null). */
module Wrappers {
  datatype Option<+T> = None | Some(value: T)
}
