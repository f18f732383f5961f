/** The optional value used for "a message was sent, or not". */
module Wrappers {

  datatype Option<+T> = None | Some(value: T)
}
