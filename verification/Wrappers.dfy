/** The optional-value datatype used for operations that may have no result. */
module Wrappers {

  datatype Option<+T> = None | Some(value: T)

}
