/** Optional values, standing in for Swift optionals such as `NSPoint?`. */
module Wrappers {

  datatype Option<+T> = None | Some(value: T)
}
