/** The conventional optional value: None stands for the C code's NULL or false return. */
module Wrappers {

  datatype Option<+T> = None | Some(value: T)
}
