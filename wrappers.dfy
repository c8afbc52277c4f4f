/** The optional value that the JavaScript sources express with `null` or `undefined`. */
module Wrappers {
  datatype Option<+T> = None | Some(value: T)
}
