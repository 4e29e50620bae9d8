/** The optional value used for a page slot that may or may not hold a page. */
module Wrappers {
  datatype Option<+T> = None | Some(value: T)
}
