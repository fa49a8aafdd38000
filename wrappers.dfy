/** A value that may be absent: a NULL pointer, an out-of-bounds access, no match. */
module Wrappers {
  datatype Option<T> = None | Some(value: T)
}
