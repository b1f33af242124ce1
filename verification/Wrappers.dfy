/** The usual optional value, used for pointers that may be NULL. */
module Wrappers {
  datatype Option<+T> = None | Some(value: T)
}
