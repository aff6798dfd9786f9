/** The optional value used throughout the model for lookups that may miss and
    for operations of the original program that may throw. */
module Wrappers {
  datatype Option<+T> = None | Some(value: T)
}
