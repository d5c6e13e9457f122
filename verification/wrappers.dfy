/** A value that may be absent: the model of a C string that may be NULL. */
module Wrappers {

  datatype Option<+T> = None | Some(value: T)
}
