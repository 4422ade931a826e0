/** Optional values: an absent JSON field, a missing row, a value that does not parse. */
module Wrappers {

  datatype Option<+T> = None | Some(value: T)
}
