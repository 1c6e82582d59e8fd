/** The optional value used wherever the source has a value that may be null or absent. */
module Wrappers {

  datatype Option<+T> = None | Some(value: T)
}
