/** The optional value that JavaScript expresses with `undefined`. */
module Wrappers {
  datatype Option<+T> = None | Some(value: T)
}
