/** Small definitions shared by the modules. */
module Basics {
  datatype Option<+T> = None | Some(value: T)

  /** An unsigned char used as a number. Modules that work on its bits use `bv8`. */
  type Byte = n: nat | n < 256

  function Min(a: nat, b: nat): nat {
    if a < b then a else b
  }
}
