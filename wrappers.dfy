/** The optional value returned by a store lookup. */
module Wrappers {
  datatype Option<+T> = None | Some(value: T)
}
