/** The optional value used where the program returns a process or `None`. */
module Wrappers {

  datatype Option<+T> = None | Some(value: T)
}
