/** The optional value used wherever the service reads "null or a value". */
module Wrappers {

  datatype Option<+T> = None | Some(value: T)
}
