/** The optional value used throughout the model for Ruby's `nil`-or-value. */
module Wrappers {

  datatype Option<+T> = None | Some(value: T)
}
