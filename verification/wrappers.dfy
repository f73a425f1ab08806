/** The optional value used throughout the model: PHP's `null` or a value. */
module Wrappers {

  datatype Option<+T> = None | Some(value: T)
}
