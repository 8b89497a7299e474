/** Absence results: the repository returns `None` where a lookup finds nothing. */
module Wrappers {
  datatype Option<+T> = None | Some(value: T)
}
