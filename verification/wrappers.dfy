/** The optional-value datatype used for lookups that may find nothing. */
module Wrappers {

  /** A value that may be absent: the result of a search that can fail. */
  datatype Option<+T> = None | Some(value: T)
}
