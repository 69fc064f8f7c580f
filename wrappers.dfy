/** The optional value used for Java's nullable results (a `Field` or `null`). */
module Wrappers {

  datatype Option<+T> = None | Some(value: T)
}
