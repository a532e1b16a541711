/** Vocabulary shared by every component: bytes, optional values, small arithmetic. */
module Bytes {

  /** An `unsigned char`. */
  type byte = b: int | 0 <= b < 256

  /** An `unsigned short`. */
  type word = w: int | 0 <= w < 0x1_0000

  /** Two bytes in network order. */
  function Word(hi: byte, lo: byte): word {
    hi * 256 + lo
  }

  datatype Option<+T> = None | Some(value: T)

  function Min(a: nat, b: nat): nat {
    if a < b then a else b
  }

  function Max(a: nat, b: nat): nat {
    if a < b then b else a
  }
}
