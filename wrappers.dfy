/** Optional values: an absent environment variable, a header without a
    pre-runtime digest log, a line that does not parse. */
module Wrappers {
  datatype Option<+T> = None | Some(value: T)
}
