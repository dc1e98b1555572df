/** Optional values: an input that may be absent, a tick that may not produce a state. */
module Wrappers {
  datatype Option<+T> = None | Some(value: T)
}
