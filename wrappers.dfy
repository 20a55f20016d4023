/** Optional values, for the dictionary keys the source may or may not set. */
module Wrappers {

  datatype Option<+T> = None | Some(value: T)
}
