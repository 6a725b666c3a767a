/** The optional value returned by a lookup that can miss. */
module Wrappers {
  datatype Option<+T> = None | Some(value: T)
}
