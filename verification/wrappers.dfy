/** The optional value: Some point, or None where the renderer returns a null shared_ptr. */
module Wrappers {

  datatype Option<+T> = None | Some(value: T)
}
