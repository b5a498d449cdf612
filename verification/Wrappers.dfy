/** Optional values, where the driver has NULL. */
module Wrappers {

  datatype Option<+T> = None | Some(value: T)
}
