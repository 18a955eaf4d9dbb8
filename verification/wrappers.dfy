/** The optional value used wherever the modelled code may hold a null reference. */
module Wrappers {

  datatype Option<+T> = None | Some(value: T)
}
