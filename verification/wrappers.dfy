/** The optional-value datatype used where the source can produce no
    usable value. */
module Wrappers {

  datatype Option<+T> = None | Some(value: T)
}
