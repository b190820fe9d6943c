/** Optional values, standing in for the nullable pointers of the half-edge graph. */
module Wrappers {

  datatype Option<+T> = None | Some(value: T)
}
