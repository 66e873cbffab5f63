/** The optional value used for absent properties, NaN parses and thrown errors. */
module Wrappers {

  datatype Option<+T> = None | Some(value: T)
}
