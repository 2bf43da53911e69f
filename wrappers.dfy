/** The optional-value datatype used for Python's `None`-or-value variables. */
module Wrappers {

  datatype Option<+T> = None | Some(value: T)
}
