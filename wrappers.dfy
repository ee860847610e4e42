/** A value that may be absent: Go's `nil` slice or error. */
module Wrappers {
  datatype Option<+T> = None | Some(value: T)
}
