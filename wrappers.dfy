/** Optional values, used where the library returns a null pointer or "not found". */
module Wrappers {
  datatype Option<+T> = None | Some(value: T)
}
