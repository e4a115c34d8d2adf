/** The optional result of a search: a value, or nothing. */
module Wrappers {

  datatype Option<+T> = None | Some(value: T)
}
