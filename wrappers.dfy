/** The optional value used for the vocabulary's `max_size` (Python `None`). */
module Wrappers {
  datatype Option<+T> = None | Some(value: T)
}
