/** The optional value, shared by the models whose source looks something up. */
module Wrappers {
  datatype Option<+T> = None | Some(value: T)
}
