/** The "value or nothing" datatype used for every all-or-nothing result of the model. */
module Wrappers {

  datatype Option<+T> = None | Some(value: T)
}
