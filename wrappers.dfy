/** The optional-value datatype used where the engine returns a null pointer or a sentinel. */
module Wrappers {
  datatype Option<T> = None | Some(value: T)
}
