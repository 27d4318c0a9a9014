/** The usual optional-value datatype, used for the browser's nullable results. */
module Wrappers {

  datatype Option<+T> = None | Some(value: T)
}
