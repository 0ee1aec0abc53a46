/** The optional value used for the snapshot's leaves: Python's `None` versus a sub-dictionary. */
module Wrappers {

  datatype Option<+T> = None | Some(value: T)
}
