/** The optional value used for Ruby's `nil`: `None` is nil, `Some(v)` is a value. */
module Wrappers {

  datatype Option<+T> = None | Some(value: T)
}
