/** The optional value used throughout: Python's `None` or a present value. */
module Wrappers {
  datatype Option<+T> = None | Some(value: T)
}
