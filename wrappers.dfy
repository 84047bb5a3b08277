/** Optional values, used for absent page fields and for parses that may fail. */
module Wrappers {
  datatype Option<+T> = None | Some(value: T)
}
