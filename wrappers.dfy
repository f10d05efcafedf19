/** The optional value returned where the JavaScript code yields `undefined`. */
module Wrappers {
  datatype Option<+T> = None | Some(value: T)
}
