/** The optional value used for a cell's letter and tag, and for the owner of a cell. */
module Wrappers {

  datatype Option<+T> = None | Some(value: T)
}
