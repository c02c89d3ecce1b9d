/** The optional-argument type used for `saveRecord`'s hooks. */
module Wrappers {

  /** A JavaScript argument that was either supplied (`Some`) or left undefined (`None`). */
  datatype Option<+T> = None | Some(value: T)
}
