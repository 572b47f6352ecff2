/** Types that several modules share. */
module Wrappers {
  datatype Option<T> = None | Some(value: T)

  /** A byte of a stream. */
  newtype byte = x: int | 0 <= x < 256
}
