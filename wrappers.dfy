/** A value that may be absent: JS's undefined, and the missing fields of an object. */
module Wrappers {

  datatype Option<T> = None | Some(value: T)
}
