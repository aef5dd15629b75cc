/** A value that may be missing: the source's null pointers and "not set" flags. */
module Wrappers {
  datatype Option<+T> = None | Some(value: T)
}
