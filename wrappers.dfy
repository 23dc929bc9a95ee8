/** The optional value used wherever the source returns None or fails softly. */
module Wrappers {

  datatype Option<+T> = None | Some(value: T)
}
