/** Optional values: Swift's `T?`, and the result of an optional chain. */
module Wrappers {

  datatype Option<+T> = None | Some(value: T)

}
