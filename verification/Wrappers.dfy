/** Values that may be missing: a C pointer that may be NULL, or a failed search. */
module Wrappers {
  datatype Option<T> = None | Some(value: T)
}
