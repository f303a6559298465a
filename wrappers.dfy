/** The optional value of a C function that may return a null pointer. */
module Wrappers {

  datatype Option<+T> = None | Some(value: T)
}
