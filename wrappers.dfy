/** Optional values: an absent argument (`undefined` in the source) is `None`. */
module Wrappers {

  datatype Option<+T> = None | Some(value: T)
}
