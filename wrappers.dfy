/** A value that may be absent: Python's `None` or a missing line of input. */
module Wrappers {
  datatype Option<+T> = None | Some(value: T)
}
