/** The optional value used for the editor's "which note is open" slot. */
module Wrappers {

  datatype Option<+T> = None | Some(value: T)
}
