/** The optional value that stands for a possibly-null child pointer. */
module Wrappers {

  datatype Option<+T> = None | Some(value: T)
}
