/** Optional values: a lookup that can fail returns None instead of throwing. */
module Wrappers {
  datatype Option<+T> = None | Some(value: T)
}
