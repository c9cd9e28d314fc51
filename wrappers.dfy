/** The optional value used for absent query parameters and unmatched rows. */
module Wrappers {

  datatype Option<+T> = None | Some(value: T)
}
