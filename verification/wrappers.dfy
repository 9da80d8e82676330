/** The optional value used for props that may be absent and for callbacks that may not fire. */
module Wrappers {

  datatype Option<+T> = None | Some(value: T)
}
