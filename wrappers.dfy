/** Optional values, used for data that the filesystem may fail to deliver. */
module Wrappers {

  datatype Option<+T> = None | Some(value: T)
}
