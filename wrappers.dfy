/** The optional result of a validator: `None` when the props are valid. */
module Wrappers {

  datatype Option<+T> = None | Some(value: T)
}
