/** Optional values: the model's stand-in for Java's `null` and Python's `None`. */
module Wrappers {
  datatype Option<+T> = None | Some(value: T)
}
