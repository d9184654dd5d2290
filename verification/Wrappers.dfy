module Wrappers {

  /** None stands for the NULL pointer of the C code where T is an address. */
  datatype Option<+T> = None | Some(value: T)
}
