/** Bytes and the optional value shared by the other modules. */
module Basics {
  type Byte = bv8
  type Bytes = seq<Byte>

  datatype Option<+T> = None | Some(value: T)
}
