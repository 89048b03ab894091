/** A value that may be missing. */
module Wrappers {
  datatype Option<T> = Absent | Some(value: T)
}
