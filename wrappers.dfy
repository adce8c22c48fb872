/** Optional values, standing in for Java's null and C's NULL. */
module Wrappers {

  datatype Option<+T> = None | Some(value: T)
}
