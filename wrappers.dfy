/** The optional value shared by the tree's root and the query parser. */
module Wrappers {
  datatype Option<T> = None | Some(value: T)
}
