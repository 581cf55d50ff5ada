/** The optional-value datatype used for operations that may not produce a result. */
module Wrappers {
  datatype Option<+T> = None | Some(value: T)
}
