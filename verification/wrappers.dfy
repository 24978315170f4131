/** The optional value used for Python's `None`-returning helpers. */
module Wrappers {

  datatype Option<+T> = None | Some(value: T)
}
