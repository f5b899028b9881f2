/** The optional value used wherever the crawler's source has "a value or None". */
module Wrappers {

  datatype Option<+T> = None | Some(value: T)
}
