/** The optional-value datatype the model uses for "no value is defined here". */
module Wrappers {

  datatype Option<+T> = None | Some(value: T)
}
