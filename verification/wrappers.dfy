/** The optional value used for "no result" (Python's None) and for an absent file. */
module Wrappers {

  datatype Option<+T> = None | Some(value: T)
}
