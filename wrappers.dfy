/** The optional value used for Go's `nil` error and `nil` function results. */
module Wrappers {

  datatype Option<+T> = None | Some(value: T)
}
