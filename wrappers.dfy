/** The optional value used for "render nothing" and "no click handler fires". */
module Wrappers {

  datatype Option<+T> = None | Some(value: T)
}
