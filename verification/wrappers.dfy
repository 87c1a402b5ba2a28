/** Optional values, standing for Ruby's `nil` where a method may return nothing. */
module Wrappers {

  datatype Option<+T> = None | Some(value: T)
}
