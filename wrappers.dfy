/** Optional values: a missing result, a React state holding `null`. */
module Wrappers {

  datatype Option<+T> = None | Some(value: T)
}
