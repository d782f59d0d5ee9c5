/** The optional value used where the source either has a value or raises. */
module Wrappers {

  datatype Option<+T> = None | Some(value: T)
}
