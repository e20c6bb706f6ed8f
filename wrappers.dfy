/** The optional value used for null pointers and missing children. */
module Wrappers {
  datatype Option<+T> = None | Some(value: T)
}
