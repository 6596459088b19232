/** What several of the models share: an optional value, and C's uint8_t. */
module Wrappers {
  datatype Option<+T> = None | Some(value: T)

  type byte = b: int | 0 <= b < 256
}
