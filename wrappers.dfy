/** The optional value used for Go's nil pointers and for failed decodings. */
module Wrappers {

  datatype Option<+T> = None | Some(value: T)
}
