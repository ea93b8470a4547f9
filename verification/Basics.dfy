/** Shared by the components. */
module Basics {
  datatype Option<+T> = None | Some(value: T)
  datatype Result<+T, +E> = Ok(value: T) | Err(error: E)

  /** Values of a `size_t` are below this. */
  const SIZE_T: nat := 0x1_0000_0000_0000_0000
}
