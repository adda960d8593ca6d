/** The optional-value datatype used by parsers and lookups. */
module Wrappers {
  datatype Option<T> = None | Some(value: T)
}
