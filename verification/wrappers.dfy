/** The optional value used wherever a dictionary lookup of the engine can miss. */
module Wrappers {
  datatype Option<+T> = None | Some(value: T)
}
