/** Small value-or-nothing type shared by the interpreter's modules. */
module Wrappers {
  datatype Option<+T> = None | Some(value: T)
}
