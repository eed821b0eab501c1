/** The usual Some/None wrapper; a `None` pointer stands for C's NULL. */
module Wrappers {
  datatype Option<+T> = None | Some(value: T)
}
