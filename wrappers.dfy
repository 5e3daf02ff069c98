/** The optional value used for Python's `None` throughout the model. */
module Wrappers {

  datatype Option<T> = None | Some(value: T)
}
