/** The optional value that stands for Python's `None` in the model. */
module Wrappers {

  datatype Option<+T> = None | Some(value: T)
}
