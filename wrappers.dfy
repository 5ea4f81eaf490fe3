/** Option, the value-or-nothing type used throughout the model. */
module Wrappers {

  datatype Option<+T> = None | Some(value: T)
}
