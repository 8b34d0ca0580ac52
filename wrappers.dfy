/** The optional value used for readings that can fail. */
module Wrappers {

  datatype Option<+T> = None | Some(value: T)
}
