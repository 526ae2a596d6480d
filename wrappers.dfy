/** The optional value used by the search for a sum of two squares and by the parser of
    display tokens. */
module Wrappers {
  datatype Option<T> = None | Some(value: T)
}
