/** Optional values, for SQL lookups that may find no row and for values a Go
    call may leave nil. */
module Wrappers {
  datatype Option<+T> = None | Some(value: T)
}
