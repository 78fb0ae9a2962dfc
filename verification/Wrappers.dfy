/** Results that may be absent: NULL pointers and error returns of the C code. */
module Wrappers {
  datatype Option<+T> = None | Some(value: T)
}
