/** The optional value used for "no hit" and for parse failures. */
module Wrappers {

  datatype Option<+T> = None | Some(value: T)
}
