/** The optional value used wherever Python returns `None` or refuses a call. */
module Wrappers {
  datatype Option<T> = None | Some(value: T)
}
