/** The optional value shared by the date parser and the storage read. */
module Wrappers {

  datatype Option<T> = None | Some(value: T)
}
