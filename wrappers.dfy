/** A nullable value: `None` stands for the C code's NULL pointer. */
module Wrappers {

  datatype Option<+T> = None | Some(value: T)
}
