/** The optional value used for results that JavaScript represents as NaN or undefined. */
module Wrappers {

  datatype Option<+T> = None | Some(value: T)
}
