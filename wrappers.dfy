/** Optional values: `None` stands for Java's `null` result. */
module Wrappers {
  datatype Option<+T> = None | Some(value: T)
}
