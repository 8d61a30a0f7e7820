/** Optional values: a SQL NULL, an unset environment variable, a failed signing. */
module Wrappers {
  datatype Option<+T> = None | Some(value: T)
}
