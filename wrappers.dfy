/** The optional-value datatype used for unset seats and for parses that can fail. */
module Wrappers {

  datatype Option<+T> = None | Some(value: T)
}
