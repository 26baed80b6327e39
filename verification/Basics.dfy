/** Types used throughout. */
module Basics {

  type Byte = bv8

  datatype Option<+T> = None | Some(value: T)
}
