/** Optional values: Swift's `T?`, a line read from the console or a parse result. */
module Wrappers {
  datatype Option<+T> = None | Some(value: T)
}
