/** The optional value used for "no match" and "no scene". */
module Wrappers {

  datatype Option<T> = None | Some(value: T)
}
