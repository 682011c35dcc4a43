/** Machine words as bounded integers, with their wrapping operations. */
module Bytes {

  datatype Option<+T> = None | Some(value: T)

  datatype Result<+T, +E> = Ok(value: T) | Err(error: E)

  type Byte = b: int | 0 <= b < 256

  type Address = a: int | 0 <= a < 0x1_0000

  /** The whole CPU address space. */
  type Memory = m: seq<Byte> | |m| == 0x1_0000 witness seq(0x1_0000, _ => 0)

  function WrapAddress(x: int): Address {
    x % 0x1_0000
  }

  function WrapByte(x: int): Byte {
    x % 256
  }

  function Word(lo: Byte, hi: Byte): Address {
    lo + 256 * hi
  }

  function Low(w: Address): Byte {
    w % 256
  }

  function High(w: Address): Byte {
    w / 256
  }

  /** `b << 1` on `u8`. */
  function Double(b: Byte): Byte {
    if b < 128 then 2 * b else 2 * b - 256
  }

  /** Two's-complement reading of a byte (`as i8`). */
  function Signed(b: Byte): int {
    if b < 128 then b else b - 256
  }

  function And8(a: Byte, b: Byte): Byte {
    (a as bv8 & b as bv8) as int
  }

  function Or8(a: Byte, b: Byte): Byte {
    (a as bv8 | b as bv8) as int
  }

  function Xor8(a: Byte, b: Byte): Byte {
    (a as bv8 ^ b as bv8) as int
  }
}
