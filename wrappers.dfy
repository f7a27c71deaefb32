/** The optional value returned where the generator can fail. */
module Wrappers {
  datatype Option<+T> = None | Some(value: T)
}
