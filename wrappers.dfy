/** The optional value used where eulerian.c returns a possibly-NULL pointer. */
module Wrappers {
  datatype Option<+T> = None | Some(value: T)
}
