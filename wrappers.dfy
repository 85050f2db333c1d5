/** The optional value used throughout the model (Python's None / JavaScript's undefined). */
module Wrappers {
  datatype Option<+T> = None | Some(value: T)
}
