/** The usual optional-value datatype, used for lines and fields that may be absent. */
module Wrappers {

  datatype Option<+T> = None | Some(value: T)
}
