/** The optional value used for JavaScript arguments that may be undefined. */
module Wrappers {

  datatype Option<+T> = None | Some(value: T)
}
