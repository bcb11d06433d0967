/** Bytes, an optional value and small arithmetic helpers shared by the model. */
module Bytes {

  /** One byte of file data or key material (a Rust `u8`). */
  type Byte = bv8

  datatype Option<+T> = None | Some(value: T)

  function Min(a: nat, b: nat): nat { if a <= b then a else b }

  function Max(a: nat, b: nat): nat { if a <= b then b else a }
}
