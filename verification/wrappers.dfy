/** A value that may be missing: a null pointer, or the result of a search. */
module Wrappers {
  datatype Option<+T> = None | Some(value: T)
}
