/** A value that may be absent: a null pointer, a missing thumbnail creator, a missing magic-byte check. */
module Wrappers {

  datatype Option<+T> = None | Some(value: T)

}
