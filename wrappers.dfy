/** The small failure-compatible datatypes shared by the container models. */
module Wrappers {

  /** A value that may be absent: a null pointer, an empty holder, End. */
  datatype Option<+T> = None | Some(value: T)
}
