/** The Some/None datatype used across the models. */
module Wrappers {

  datatype Option<+T> = None | Some(value: T)
}
