/** An optional result, for the NULL and JSONFailure returns of the C code. */
module Wrappers {
  datatype Option<+T> = None | Some(value: T)
}
