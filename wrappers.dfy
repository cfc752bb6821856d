/** The optional value used wherever the source distinguishes `undefined` from a value. */
module Wrappers {

  datatype Option<+T> = None | Some(value: T)
}
