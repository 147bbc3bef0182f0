/** The optional value used for the error returns of the model. */
module Wrappers {

  datatype Option<+T> = None | Some(value: T)
}
