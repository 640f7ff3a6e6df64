/** Optional values, fallible results and the width of a machine word. */
module Wrappers {

  /** usize::MAX on 64-bit hosts. */
  const USIZE_MAX: nat := 0xFFFF_FFFF_FFFF_FFFF

  datatype Option<+T> = None | Some(value: T)

  datatype Result<+T, +E> = Success(value: T) | Failure(error: E)
}
