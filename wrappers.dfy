/** The usual optional-value wrapper, used where a lookup may find nothing. */
module Wrappers {
  datatype Option<T> = None | Some(value: T)
}
