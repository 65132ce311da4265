/** The optional value used for a participant's email address, which the
    source keeps as a string or Python's `None`. */
module Wrappers {

  datatype Option<+T> = None | Some(value: T)
}
