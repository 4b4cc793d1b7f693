/** Optional values: the model of JavaScript's `null` where the source uses it. */
module Wrappers {
  datatype Option<+T> = None | Some(value: T)
}
