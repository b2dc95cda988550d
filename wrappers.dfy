/** The Option type used for a classification that may find nothing. */
module Wrappers {
  datatype Option<+T> = None | Some(value: T)
}
