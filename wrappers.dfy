/** The optional value returned where the source returns an object or None. */
module Wrappers {

  datatype Option<+T> = None | Some(value: T)
}
