/** Small helper datatypes shared by the whole model. */
module Wrappers {

  /** A value that may be absent: Go's nil pointer or SQL NULL. */
  datatype Option<T> = None | Some(value: T)
}
