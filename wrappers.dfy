/** Optional values, used wherever the program has a value that may be None or null. */
module Wrappers {

  datatype Option<+T> = None | Some(value: T)
}
