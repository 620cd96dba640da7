/** Optional values, used for replies of the external calls and for parse results. */
module Wrappers {
  datatype Option<+T> = None | Some(value: T)
}
