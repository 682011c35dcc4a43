/**
 The bit-vector expressions of the interpreter and the boards, and what they compute
 on byte values. Each value is given both as a number and as its bit vector.
 */
module BitMasks {
  import opened Bytes

  lemma SignBit(x: Byte, v: bv8)
    requires v as int == x
    ensures v & 0x80 != 0 <==> x >= 128
  {
    assert v & 0x80 != 0 <==> v >= 128;
  }

  lemma Bit6(x: Byte, v: bv8)
    requires v as int == x
    ensures v & 0x40 != 0 <==> x / 64 % 2 == 1
  {
  }

  lemma LowBit(x: Byte, v: bv8)
    requires v as int == x
    ensures v & 0x01 != 0 <==> x % 2 == 1
  {
  }

  lemma ComplementByte(x: Byte, v: bv8)
    requires v as int == x
    ensures (v ^ 0xFF) as int == 255 - x
  {
  }

  lemma ShiftLeftIsDouble(x: Byte, v: bv8)
    requires v as int == x
    ensures (v << 1) as int == Double(x)
  {
    assert v < 128 <==> x < 128;
  }

  /** A rotate to the left brings the carry in at the bottom. */
  lemma RotateLeft(x: Byte, v: bv8, c: bv8)
    requires v as int == x && c <= 1
    ensures ((v << 1) | c) as int == Double(x) + c as int
  {
    assert (v << 1) | c == (v << 1) + c;
    ShiftLeftIsDouble(x, v);
    assert v << 1 <= 254;
  }

  /** A rotate to the right brings it in at the top. */
  lemma RotateRight(x: Byte, v: bv8, c: bv8)
    requires v as int == x && c <= 1
    ensures ((v >> 1) | (c << 7)) as int == x / 2 + 128 * c as int
  {
  }

  /** The sixteen-bit sum whose low byte and carry are given. */
  function WideSum(low: bv8, carry: bool): bv16 {
    (low as bv16) | (if carry then 0x100 else 0)
  }

  /** The adder's overflow expression, on bytes widened to sixteen bits. */
  function OverflowBit(a: bv8, m: bv8, low: bv8, carry: bool): bool {
    var a16, m16, t := a as bv16, m as bv16, WideSum(low, carry);
    !(a16 ^ m16) & (a16 ^ t) & 0x80 != 0
  }

  /** It compares signs. */
  lemma OverflowBits(a: bv8, m: bv8, low: bv8, carry: bool)
    ensures OverflowBit(a, m, low, carry) <==> (a & 0x80 == m & 0x80) && a & 0x80 != low & 0x80
  {
  }

  lemma BackToBits(v: bv8)
    ensures (v as int) as bv8 == v
  {
  }

  lemma NextBits(v: bv8)
    requires v < 255
    ensures (v + 1) as int == v as int + 1
  {
  }

  lemma {:induction false} BitsFor(x: nat) returns (v: bv8)
    requires x < 256
    ensures v as int == x
  {
    if x == 0 {
      v := 0;
    } else {
      v := BitsFor(x - 1);
      NextBits(v);
      v := v + 1;
    }
  }

  lemma BitsOfByte(x: Byte)
    ensures (x as bv8) as int == x
  {
    var v := BitsFor(x);
    BackToBits(v);
  }

  /** A byte as its bits. */
  method ToBits(x: Byte) returns (v: bv8)
    ensures v as int == x
  {
    BitsOfByte(x);
    v := x as bv8;
  }
}
