/** The optional value used wherever the C code keeps a possibly-NULL pointer. */
module Wrappers {

  /** `None` plays the part of a NULL pointer, `Some(v)` of a pointer to `v`. */
  datatype Option<+T> = None | Some(value: T)
}
