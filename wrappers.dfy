/** The optional-value type used across the model for `undefined` results and thrown exceptions. */
module Wrappers {

  datatype Option<+T> = None | Some(value: T)
}
