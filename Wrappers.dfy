/** A nullable reference of the source (a `string` field that may be `null`). */
module Wrappers {

  datatype Option<+T> = None | Some(value: T)

}
