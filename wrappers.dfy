/** The optional value the model uses wherever the source has a nullable reference. */
module Wrappers {
  datatype Option<+T> = None | Some(value: T)
}
