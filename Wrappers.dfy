/** The optional value used for the manager's pending slot and the folder's listing fault. */
module Wrappers {
  datatype Option<+T> = None | Some(value: T)
}
