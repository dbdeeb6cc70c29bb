/** The optional value that `Array.prototype.find` yields: the element found, or nothing. */
module Wrappers {
  datatype Option<+T> = None | Some(value: T)
}
