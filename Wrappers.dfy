/** Optional values, for the operations of the loader that can fail on one input. */
module Wrappers {

  datatype Option<+T> = None | Some(value: T)
}
