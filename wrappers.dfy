/** The optional value that `intersect` and the shadow construction return. */
module Wrappers {

  datatype Option<+T> = None | Some(value: T)
}
