/** The optional value used for Go's nil-able pointers (a message, its sender). */
module Wrappers {

  datatype Option<+T> = None | Some(value: T)
}
