/** The optional-value datatype used across the model. */
module Wrappers {

  /** Some value, or none at all (a missing dictionary key, no match). */
  datatype Option<+T> = None | Some(value: T)
}
