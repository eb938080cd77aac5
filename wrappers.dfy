/** The optional value used for the content of a board cell: Python's `None` or an object. */
module Wrappers {
  datatype Option<+T> = None | Some(value: T)
}
