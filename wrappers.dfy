/** The optional value that stands for "the function raised instead of returning". */
module Wrappers {
  datatype Option<+T> = None | Some(value: T)
}
