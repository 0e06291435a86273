/** The optional value used for sizes that may be unknown. */
module Wrappers {
  datatype Option<+T> = None | Some(value: T)
}
