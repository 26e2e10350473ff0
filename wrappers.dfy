/** The optional value used for attributes a Python object may or may not have. */
module Wrappers {

  datatype Option<+T> = None | Some(value: T)
}
