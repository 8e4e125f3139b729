/** An optional value: a pointer that may be null, a result that may be absent. */
module Wrappers {

  datatype Option<T> = None | Some(value: T)
}
