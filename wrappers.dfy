/** The optional value the pass returns from a lookup that may find nothing. */
module Wrappers {
  datatype Option<+T> = None | Some(value: T)
}
