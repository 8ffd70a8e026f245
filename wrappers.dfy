/** The optional-value datatype used throughout the model (a nullable reference in the page). */
module Wrappers {
  datatype Option<+T> = None | Some(value: T)
}
