/** Option, used for the nullable parent pointer of a node. */
module Wrappers {

  datatype Option<+T> = None | Some(value: T)
}
