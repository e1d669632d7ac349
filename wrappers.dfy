/** Optional values: a request parameter that may be absent (Ruby's nil),
    a lookup that may find nothing. */
module Wrappers {
  datatype Option<+T> = None | Some(value: T)
}
