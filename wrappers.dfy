/** An optional value: a read that can fail yields `None`. */
module Wrappers {
  datatype Option<T> = None | Some(value: T)
}
