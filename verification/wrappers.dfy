/** The optional value used wherever the game keeps `None` or an object. */
module Wrappers {
  datatype Option<+T> = None | Some(value: T)
}
