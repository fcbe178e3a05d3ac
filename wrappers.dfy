/** The optional value used for Python's `None` (a missing reminder, a missing state entry). */
module Wrappers {

  datatype Option<+T> = None | Some(value: T)
}
