/** The optional value returned by a matcher that may fail. */
module Wrappers {

  datatype Option<+T> = None | Some(value: T)

}
