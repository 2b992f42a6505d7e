/** The optional value used for lookups that may find nothing (first_or_404). */
module Wrappers {

  datatype Option<+T> = None | Some(value: T)
}
