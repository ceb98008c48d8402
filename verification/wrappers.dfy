/** Optional values: the SQL NULL / JavaScript `null` of a column that may be missing. */
module Wrappers {

  datatype Option<+T> = None | Some(value: T)
}
