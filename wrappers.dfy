/** Wrappers: the optional value used for lookups that may find nothing. */
module Wrappers {
  datatype Option<+T> = None | Some(value: T)
}
