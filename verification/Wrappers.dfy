/** A value that may be absent: the null of C, or -1 for an index. */
module Wrappers {
  datatype Option<+T> = None | Some(value: T)
}
