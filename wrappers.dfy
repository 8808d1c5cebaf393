/** The optional-value datatype used for absent transaction metadata and empty timer slots. */
module Wrappers {

  datatype Option<+T> = None | Some(value: T)
}
