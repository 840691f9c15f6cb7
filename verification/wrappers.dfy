/** The optional value used for nullable pointers. */
module Wrappers {

  /** `None` plays the part of a null pointer; `Some(v)` carries a value. */
  datatype Option<+T> = None | Some(value: T)
}
