/** Option, used for Python's `None` returns and for the cases where the source raises. */
module Wrappers {

  datatype Option<+T> = None | Some(value: T)
}
