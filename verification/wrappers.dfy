/** The optional value that stands in for Kotlin's nullable types (`Zone?`). */
module Wrappers {

  datatype Option<+T> = None | Some(value: T)
}
