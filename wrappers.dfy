/** Optional values, as returned by the document's lookups. */
module Wrappers {
  datatype Option<+T> = None | Some(value: T)
}
