/** A value that may be absent, shared by the hash map's lookup and the
    unit compiler's name tables. */
module Wrappers {
  datatype Option<T> = None | Some(value: T)
}
