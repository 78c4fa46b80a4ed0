/** The optional value used for an empty side of the book and for "no data". */
module Wrappers {
  datatype Option<+T> = None | Some(value: T)
}
