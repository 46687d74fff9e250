/** A value that may be absent: Go's (value, ok) and nil. */
module Wrappers {
  datatype Option<T> = None | Some(value: T)
}
