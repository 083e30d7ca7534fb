/** Optional values, standing for Java references that may be null or searches that may fail. */
module Wrappers {
  datatype Option<+T> = None | Some(value: T)
}
