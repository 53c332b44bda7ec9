/** The optional value used for absent tags, keys and indices. */
module Wrappers {
  datatype Option<+T> = None | Some(value: T)
}
