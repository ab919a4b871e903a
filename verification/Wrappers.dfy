/** A value that may be missing, as the other modules use it. */
module Wrappers {
  datatype Option<+T> = None | Some(value: T)
}
