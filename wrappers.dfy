/** The Option datatype used where the Go code has a nil-able value. */
module Wrappers {

  datatype Option<+T> = None | Some(value: T)

}
