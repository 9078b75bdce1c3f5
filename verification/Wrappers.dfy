/** The optional value shared by the models below. */
module Wrappers {
  datatype Option<+T> = None | Some(value: T)
}
