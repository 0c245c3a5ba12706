/** The conventional optional-value datatype used by the selector. */
module Wrappers {

  datatype Option<+T> = None | Some(value: T)
}
