/** The optional-value type used throughout the model (JavaScript's null/undefined results). */
module Wrappers {
  datatype Option<+T> = None | Some(value: T)
}
