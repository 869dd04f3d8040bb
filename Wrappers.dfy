/** An optional value, standing for the C code's possibly-NULL pointers. */
module Wrappers {

  datatype Option<+T> = None | Some(value: T)
}
