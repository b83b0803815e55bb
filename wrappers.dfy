/** An optional value, for operations that can fail on malformed input. */
module Wrappers {

  datatype Option<T> = None | Some(value: T)
}
