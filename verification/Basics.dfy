/** Small things that several components share. */
module Basics {

  datatype Option<+T> = None | Some(value: T)

  /** The end of a string in memory. */
  const NUL: char := '\0'
}
