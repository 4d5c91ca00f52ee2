/** The optional value used for nullable references and Java's Optional. */
module Wrappers {

  datatype Option<+T> = None | Some(value: T)
}
