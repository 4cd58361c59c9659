/** The optional-value datatype used where the C code returns NULL or "nothing found". */
module Wrappers {

  datatype Option<+T> = None | Some(value: T)
}
