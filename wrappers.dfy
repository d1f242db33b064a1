/** The optional value the handlers and the recognizer return in place of `null`. */
module Wrappers {
  datatype Option<+T> = None | Some(value: T)
}
