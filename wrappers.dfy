/** The optional value used for a score that has not been written yet and
    for a document that yields no result. */
module Wrappers {
  datatype Option<+T> = None | Some(value: T)
}
