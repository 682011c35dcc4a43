/** Bytes bit by bit: what the bitwise operations and the status byte hold in each place. */
module ByteBits {
  import opened Bytes
  import opened BitMasks
  import opened Isa

  /** Bit `i` of a number, the lowest being bit 0. */
  predicate BitAt(x: nat, i: nat) {
    if i == 0 then x % 2 == 1 else BitAt(x / 2, i - 1)
  }

  /** A bit vector and its number. */
  predicate Denotes(v: bv8, x: Byte) {
    v as int == x
  }

  predicate Odd(v: bv8) {
    v & 1 == 1
  }

  function HalfBits(v: bv8): bv8 {
    v >> 1
  }

  function Both(v: bv8, w: bv8): bv8 {
    v & w
  }

  function Any(v: bv8, w: bv8): bv8 {
    v | w
  }

  function Differ(v: bv8, w: bv8): bv8 {
    v ^ w
  }

  lemma HalfOfBits(v: bv8, x: Byte)
    requires Denotes(v, x)
    ensures Denotes(HalfBits(v), x / 2)
    ensures Odd(v) <==> x % 2 == 1
  {
  }

  lemma HalvesOfBits(v: bv8, w: bv8)
    ensures HalfBits(Both(v, w)) == Both(HalfBits(v), HalfBits(w))
    ensures HalfBits(Any(v, w)) == Any(HalfBits(v), HalfBits(w))
    ensures HalfBits(Differ(v, w)) == Differ(HalfBits(v), HalfBits(w))
    ensures Odd(Both(v, w)) <==> Odd(v) && Odd(w)
    ensures Odd(Any(v, w)) <==> Odd(v) || Odd(w)
    ensures Odd(Differ(v, w)) <==> Odd(v) != Odd(w)
  {
  }

  /** The values of two bit vectors and of their conjunction, disjunction and exclusive or. */
  datatype Values = Values(x: Byte, y: Byte, both: Byte, any: Byte, differ: Byte) {
    ghost predicate Of(v: bv8, w: bv8) {
      Denotes(v, x) && Denotes(w, y) && Denotes(Both(v, w), both) && Denotes(Any(v, w), any) && Denotes(Differ(v, w), differ)
    }

    function Half(): Values {
      Values(x / 2, y / 2, both / 2, any / 2, differ / 2)
    }

    predicate Place(i: nat) {
      && (BitAt(both, i) <==> BitAt(x, i) && BitAt(y, i))
      && (BitAt(any, i) <==> BitAt(x, i) || BitAt(y, i))
      && (BitAt(differ, i) <==> BitAt(x, i) != BitAt(y, i))
    }
  }

  lemma LowestPlace(v: bv8, w: bv8, s: Values)
    requires s.Of(v, w)
    ensures s.Half().Of(HalfBits(v), HalfBits(w))
    ensures s.Place(0)
  {
    hide Denotes, Odd, HalfBits, Both, Any, Differ;
    HalfOfBits(v, s.x);
    HalfOfBits(w, s.y);
    HalfOfBits(Both(v, w), s.both);
    HalfOfBits(Any(v, w), s.any);
    HalfOfBits(Differ(v, w), s.differ);
    HalvesOfBits(v, w);
  }

  lemma NextPlace(s: Values, i: nat)
    requires i > 0 && s.Half().Place(i - 1)
    ensures s.Place(i)
  {
  }

  lemma {:induction false} EveryPlace(v: bv8, w: bv8, s: Values, i: nat)
    requires s.Of(v, w)
    ensures s.Place(i)
    decreases i
  {
    hide Values.Place, Values.Of, Values.Half;
    LowestPlace(v, w, s);
    if i > 0 {
      EveryPlace(HalfBits(v), HalfBits(w), s.Half(), i - 1);
      NextPlace(s, i);
    }
  }

  lemma AndOfBits(a: Byte, b: Byte, v: bv8, w: bv8)
    requires a as bv8 == v && b as bv8 == w
    ensures And8(a, b) == (v & w) as int
  {
  }

  lemma OrOfBits(a: Byte, b: Byte, v: bv8, w: bv8)
    requires a as bv8 == v && b as bv8 == w
    ensures Or8(a, b) == (v | w) as int
  {
  }

  lemma XorOfBits(a: Byte, b: Byte, v: bv8, w: bv8)
    requires a as bv8 == v && b as bv8 == w
    ensures Xor8(a, b) == (v ^ w) as int
  {
  }

  lemma BitsDenoted(a: Byte) returns (v: bv8)
    ensures Denotes(v, a) && a as bv8 == v
  {
    v := BitsFor(a);
    BackToBits(v);
  }

  lemma BitwiseValues(a: Byte, b: Byte) returns (v: bv8, w: bv8)
    ensures Values(a, b, And8(a, b), Or8(a, b), Xor8(a, b)).Of(v, w)
  {
    hide And8, Or8, Xor8;
    v := BitsDenoted(a);
    w := BitsDenoted(b);
    AndOfBits(a, b, v, w);
    OrOfBits(a, b, v, w);
    XorOfBits(a, b, v, w);
  }

  /** The three bitwise operations on bytes, place by place. */
  lemma BitwisePlaces(a: Byte, b: Byte, i: nat)
    ensures BitAt(And8(a, b), i) <==> BitAt(a, i) && BitAt(b, i)
    ensures BitAt(Or8(a, b), i) <==> BitAt(a, i) || BitAt(b, i)
    ensures BitAt(Xor8(a, b), i) <==> BitAt(a, i) != BitAt(b, i)
  {
    hide And8, Or8, Xor8, BitAt;
    var v, w := BitwiseValues(a, b);
    EveryPlace(v, w, Values(a, b, And8(a, b), Or8(a, b), Xor8(a, b)), i);
  }

  /** Numbers below 2^n with the same bits are equal. */
  lemma {:induction false} SameBitsBelow(x: nat, y: nat, n: nat)
    requires (n == 0 ==> x == 0 && y == 0) && (n > 0 ==> forall i: nat :: i < n ==> (BitAt(x, i) <==> BitAt(y, i)))
    requires x < Power2(n) && y < Power2(n)
    ensures x == y
    decreases n
  {
    if n > 0 {
      assert BitAt(x, 0) <==> BitAt(y, 0);
      forall i: nat | i < n - 1
        ensures BitAt(x / 2, i) <==> BitAt(y / 2, i)
      {
        assert BitAt(x, i + 1) <==> BitAt(y, i + 1);
      }
      SameBitsBelow(x / 2, y / 2, n - 1);
    }
  }

  function Power2(n: nat): nat {
    if n == 0 then 1 else 2 * Power2(n - 1)
  }

  /** Bytes with the same eight bits are equal. */
  lemma SameBits(x: Byte, y: Byte)
    requires forall i: nat :: i < 8 ==> (BitAt(x, i) <==> BitAt(y, i))
    ensures x == y
  {
    assert Power2(8) == 256;
    SameBitsBelow(x, y, 8);
  }

  lemma {:induction false} ZeroHasNoBits(i: nat)
    ensures !BitAt(0, i)
  {
    if i > 0 {
      ZeroHasNoBits(i - 1);
    }
  }

  /** No bit is set in both bytes. */
  predicate Disjoint(a: Byte, b: Byte) {
    forall i: nat :: i < 8 ==> !(BitAt(a, i) && BitAt(b, i))
  }

  lemma DisjointPlace(a: Byte, b: Byte, i: nat)
    requires Disjoint(a, b) && i < 8
    ensures !BitAt(And8(a, b), i)
  {
    BitwisePlaces(a, b, i);
  }

  /** A conjunction is zero exactly when no bit is set in both. */
  lemma NoSharedBit(a: Byte, b: Byte)
    ensures And8(a, b) == 0 <==> Disjoint(a, b)
  {
    hide And8;
    if Disjoint(a, b) {
      forall i: nat | i < 8
        ensures BitAt(And8(a, b), i) <==> BitAt(0, i)
      {
        DisjointPlace(a, b, i);
        ZeroHasNoBits(i);
      }
      SameBits(And8(a, b), 0);
    }
    if And8(a, b) == 0 {
      forall i: nat | i < 8
        ensures !(BitAt(a, i) && BitAt(b, i))
      {
        BitwisePlaces(a, b, i);
        ZeroHasNoBits(i);
      }
    }
  }

  /** A byte read back as status gives each flag its place: C Z I D B U V N, from the lowest. */
  lemma FlagPlaces(p: Byte)
    ensures var f := ByteFlags(p);
            && f.c == BitAt(p, 0) && f.z == BitAt(p, 1) && f.i == BitAt(p, 2) && f.d == BitAt(p, 3)
            && f.b == BitAt(p, 4) && f.u == BitAt(p, 5) && f.v == BitAt(p, 6) && f.n == BitAt(p, 7)
  {
    var p1 := p / 2; var p2 := p1 / 2; var p3 := p2 / 2; var p4 := p3 / 2; var p5 := p4 / 2; var p6 := p5 / 2; var p7 := p6 / 2;
    assert p7 < 2;
    assert BitAt(p, 7) == BitAt(p1, 6) == BitAt(p2, 5) == BitAt(p3, 4) == BitAt(p4, 3) == BitAt(p5, 2) == BitAt(p6, 1) == BitAt(p7, 0);
    assert BitAt(p, 6) == BitAt(p1, 5) == BitAt(p2, 4) == BitAt(p3, 3) == BitAt(p4, 2) == BitAt(p5, 1) == BitAt(p6, 0);
    assert BitAt(p, 5) == BitAt(p1, 4) == BitAt(p2, 3) == BitAt(p3, 2) == BitAt(p4, 1) == BitAt(p5, 0);
    assert BitAt(p, 4) == BitAt(p1, 3) == BitAt(p2, 2) == BitAt(p3, 1) == BitAt(p4, 0);
    assert BitAt(p, 3) == BitAt(p1, 2) == BitAt(p2, 1) == BitAt(p3, 0);
  }

  /** And the status byte has its flags in the same places. */
  lemma StatusPlaces(f: Flags)
    ensures BitAt(FlagsByte(f), 0) == f.c && BitAt(FlagsByte(f), 1) == f.z && BitAt(FlagsByte(f), 2) == f.i
    ensures BitAt(FlagsByte(f), 3) == f.d && BitAt(FlagsByte(f), 4) == f.b && BitAt(FlagsByte(f), 5) == f.u
    ensures BitAt(FlagsByte(f), 6) == f.v && BitAt(FlagsByte(f), 7) == f.n
  {
    hide BitAt, FlagsByte, ByteFlags;
    UnpackPacked(f);
    FlagPlaces(FlagsByte(f));
  }

  /** The highest bit is the sign. */
  lemma SignPlace(r: Byte)
    ensures BitAt(r, 7) <==> r >= 128
  {
    var r1 := r / 2; var r2 := r1 / 2; var r3 := r2 / 2; var r4 := r3 / 2; var r5 := r4 / 2; var r6 := r5 / 2; var r7 := r6 / 2;
    assert r7 < 2 && (r7 == 1 <==> r >= 128);
    assert BitAt(r, 7) == BitAt(r1, 6) == BitAt(r2, 5) == BitAt(r3, 4) == BitAt(r4, 3) == BitAt(r5, 2) == BitAt(r6, 1) == BitAt(r7, 0);
  }

  lemma SecondPlace(r: Byte)
    ensures BitAt(r, 6) <==> r / 64 % 2 == 1
  {
    var r1 := r / 2; var r2 := r1 / 2; var r3 := r2 / 2; var r4 := r3 / 2; var r5 := r4 / 2; var r6 := r5 / 2;
    assert r6 == r / 64;
    assert BitAt(r, 6) == BitAt(r1, 5) == BitAt(r2, 4) == BitAt(r3, 3) == BitAt(r4, 2) == BitAt(r5, 1) == BitAt(r6, 0);
  }

  /** Four places up is the same place of a sixteenth. */
  lemma FourPlaces(x: nat, i: nat)
    ensures BitAt(x, i + 4) <==> BitAt(x / 16, i)
  {
    var x1 := x / 2; var x2 := x1 / 2; var x3 := x2 / 2;
    assert x3 / 2 == x / 16;
    assert BitAt(x, i + 4) == BitAt(x1, i + 3) == BitAt(x2, i + 2) == BitAt(x3, i + 1) == BitAt(x3 / 2, i);
  }
}
