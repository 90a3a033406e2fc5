/** Optional values, for parsers and answers that may be absent. */
module Wrappers {
  datatype Option<+T> = None | Some(value: T)
}
