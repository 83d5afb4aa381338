/** A value that may be missing: a null pointer, an empty callback, a lookup that fails. */
module Wrappers {
  datatype Option<+T> = None | Some(value: T)
}
