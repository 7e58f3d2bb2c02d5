/** The conventional optional value, used for the source's null pointers and failed reads. */
module Wrappers {
  datatype Option<+T> = None | Some(value: T)
}
