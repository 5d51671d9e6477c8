/** The optional value used for lookups and for errors that may or may not occur. */
module Wrappers {
  datatype Option<+T> = None | Some(value: T)
}
