/**
 Multi-byte arithmetic: what a low-to-high chain of LDA/ADC or LDA/SBC steps
 computes on whole little-endian numbers.
 */
module MultiByte {
  import opened Bytes
  import opened Cpu6502
  import opened Isa

  function Power256(n: nat): (p: int)
    ensures p >= 1
  {
    if n == 0 then 1 else 256 * Power256(n - 1)
  }

  /** Little-endian value. */
  function Value(bytes: seq<Byte>): int {
    if bytes == [] then 0 else bytes[0] + 256 * Value(bytes[1..])
  }

  /** The unsigned number, less 256^n when the sign bit is set. */
  function TwosComplement(bytes: seq<Byte>): int
    requires bytes != []
  {
    Value(bytes) - if bytes[|bytes| - 1] >= 128 then Power256(|bytes|) else 0
  }

  /** The signed reading digit by digit: only the last byte is signed. */
  function SignedValue(bytes: seq<Byte>): int
    requires bytes != []
  {
    if |bytes| == 1 then Signed(bytes[0]) else bytes[0] + 256 * SignedValue(bytes[1..])
  }

  lemma {:induction false} SignedValueIsTwosComplement(bytes: seq<Byte>)
    requires bytes != []
    ensures SignedValue(bytes) == TwosComplement(bytes)
  {
    if |bytes| == 1 {
      assert Power256(1) == 256 * Power256(0);
      assert Value(bytes[1..]) == 0;
    } else {
      SignedValueIsTwosComplement(bytes[1..]);
    }
  }

  lemma {:induction false} ValueBound(bytes: seq<Byte>)
    ensures 0 <= Value(bytes) < Power256(|bytes|)
  {
    if bytes != [] {
      ValueBound(bytes[1..]);
    }
  }

  datatype Chain = Chain(m: Machine, out: seq<Byte>)

  function ByteStep(mn: Mnemonic, m: Machine, x: Byte, y: Byte): Machine
    requires mn.ADC? || mn.SBC?
  {
    ExecuteRead(mn, y, ExecuteRead(LDA, x, m))
  }

  /** `LDA x / op y` byte by byte from the low end, collecting A after each step. */
  function Run(mn: Mnemonic, m: Machine, xs: seq<Byte>, ys: seq<Byte>): (r: Chain)
    requires mn.ADC? || mn.SBC?
    requires |xs| == |ys|
    ensures |r.out| == |xs|
    decreases |xs|
  {
    if xs == [] then Chain(m, []) else
    var next := ByteStep(mn, m, xs[0], ys[0]);
    var rest := Run(mn, next, xs[1..], ys[1..]);
    Chain(rest.m, [next.a] + rest.out)
  }

  lemma AdcStep(m: Machine, x: Byte, y: Byte)
    ensures var r := ByteStep(ADC, m, x, y);
            && x + y + BitOf(m.f.c) == r.a + 256 * BitOf(r.f.c)
            && (r.f.v <==> !(-128 <= Signed(x) + Signed(y) + BitOf(m.f.c) < 128))
  {
  }

  lemma SbcStep(m: Machine, x: Byte, y: Byte)
    ensures var r := ByteStep(SBC, m, x, y);
            && x - y - (1 - BitOf(m.f.c)) == r.a - 256 * (1 - BitOf(r.f.c))
            && (r.f.v <==> !(-128 <= Signed(x) - Signed(y) - (1 - BitOf(m.f.c)) < 128))
  {
  }

  /** Whole-number addition, the carry in and the carry out included. */
  lemma {:induction false} AddChain(m: Machine, xs: seq<Byte>, ys: seq<Byte>)
    requires |xs| == |ys|
    ensures var r := Run(ADC, m, xs, ys);
            Value(xs) + Value(ys) + BitOf(m.f.c) == Value(r.out) + (if r.m.f.c then Power256(|xs|) else 0)
    decreases |xs|
  {
    if xs != [] {
      var next := ByteStep(ADC, m, xs[0], ys[0]);
      AdcStep(m, xs[0], ys[0]);
      AddChain(next, xs[1..], ys[1..]);
      assert Run(ADC, m, xs, ys).out[1..] == Run(ADC, next, xs[1..], ys[1..]).out;
    }
  }

  /** Whole-number subtraction; a clear carry is a borrow, going in and coming out. */
  lemma {:induction false} SubtractChain(m: Machine, xs: seq<Byte>, ys: seq<Byte>)
    requires |xs| == |ys|
    ensures var r := Run(SBC, m, xs, ys);
            Value(xs) - Value(ys) - (1 - BitOf(m.f.c)) == Value(r.out) - (if r.m.f.c then 0 else Power256(|xs|))
    decreases |xs|
  {
    if xs != [] {
      var next := ByteStep(SBC, m, xs[0], ys[0]);
      SbcStep(m, xs[0], ys[0]);
      SubtractChain(next, xs[1..], ys[1..]);
      assert Run(SBC, m, xs, ys).out[1..] == Run(SBC, next, xs[1..], ys[1..]).out;
    }
  }

  /** The signed range of `n` bytes. */
  predicate Fits(v: int, n: nat) {
    -Power256(n) <= 2 * v < Power256(n)
  }

  lemma HalfRange(low: int, high: int, half: int)
    requires 0 <= low < 256
    ensures -512 * half <= 2 * (low + 256 * high) < 512 * half <==> -half <= high < half
  {
  }

  /** A low digit below 256 never decides whether a longer number fits. */
  lemma FitsByHighPart(low: int, high: int, n: nat)
    requires 0 <= low < 256 && n >= 1
    ensures Fits(low + 256 * high, n + 1) <==> Fits(high, n)
  {
    HalfRange(low, high, 128 * Power256(n - 1));
  }

  lemma {:induction false} AddOverflow(m: Machine, xs: seq<Byte>, ys: seq<Byte>)
    requires |xs| == |ys| && xs != []
    ensures Run(ADC, m, xs, ys).m.f.v <==> !Fits(SignedValue(xs) + SignedValue(ys) + BitOf(m.f.c), |xs|)
    decreases |xs|
  {
    var next := ByteStep(ADC, m, xs[0], ys[0]);
    AdcStep(m, xs[0], ys[0]);
    if |xs| == 1 {
      assert Run(ADC, m, xs, ys).m == next;
      assert Power256(1) == 256 * Power256(0);
    } else {
      AddOverflow(next, xs[1..], ys[1..]);
      FitsByHighPart(next.a, SignedValue(xs[1..]) + SignedValue(ys[1..]) + BitOf(next.f.c), |xs| - 1);
    }
  }

  lemma {:induction false} SubtractOverflow(m: Machine, xs: seq<Byte>, ys: seq<Byte>)
    requires |xs| == |ys| && xs != []
    ensures Run(SBC, m, xs, ys).m.f.v <==> !Fits(SignedValue(xs) - SignedValue(ys) - (1 - BitOf(m.f.c)), |xs|)
    decreases |xs|
  {
    var next := ByteStep(SBC, m, xs[0], ys[0]);
    SbcStep(m, xs[0], ys[0]);
    if |xs| == 1 {
      assert Run(SBC, m, xs, ys).m == next;
      assert Power256(1) == 256 * Power256(0);
    } else {
      SubtractOverflow(next, xs[1..], ys[1..]);
      FitsByHighPart(next.a, SignedValue(xs[1..]) - SignedValue(ys[1..]) - (1 - BitOf(next.f.c)), |xs| - 1);
    }
  }

  lemma SmallRemainder(total: int, modulus: int, r: int)
    requires 0 <= r < modulus
    requires total == r || total == r + modulus || total == r - modulus
    ensures total % modulus == r
  {
    var q, rem := total / modulus, total % modulus;
    var k := if total == r then 0 else if total > r then 1 else -1;
    assert modulus * (q - k) == r - rem;
    MultipleGrows(modulus, q - k);
  }

  lemma MultipleGrows(modulus: int, k: int)
    requires modulus >= 1
    ensures k >= 1 ==> modulus * k >= modulus
    ensures k <= -1 ==> modulus * k <= -modulus
  {
  }

  /**
   With carry clear, as CLC leaves it, the chain adds: the result is the sum modulo
   256^n, C is the carry out and V says that the signed sum does not fit in n bytes.
   */
  lemma MultiByteAdd(m: Machine, xs: seq<Byte>, ys: seq<Byte>)
    requires |xs| == |ys| && xs != [] && !m.f.c
    ensures var r := Run(ADC, m, xs, ys);
            && Value(r.out) == (Value(xs) + Value(ys)) % Power256(|xs|)
            && (r.m.f.c <==> Value(xs) + Value(ys) >= Power256(|xs|))
            && (r.m.f.v <==> !Fits(TwosComplement(xs) + TwosComplement(ys), |xs|))
  {
    hide Run, Value, SignedValue, Fits;
    var r := Run(ADC, m, xs, ys);
    SignedValueIsTwosComplement(xs);
    SignedValueIsTwosComplement(ys);
    AddChain(m, xs, ys);
    ValueBound(r.out);
    SmallRemainder(Value(xs) + Value(ys), Power256(|xs|), Value(r.out));
    AddOverflow(m, xs, ys);
  }

  /** With carry set, as SEC leaves it, the chain subtracts; C is "no borrow" and V is signed overflow. */
  lemma MultiByteSubtract(m: Machine, xs: seq<Byte>, ys: seq<Byte>)
    requires |xs| == |ys| && xs != [] && m.f.c
    ensures var r := Run(SBC, m, xs, ys);
            && Value(r.out) == (Value(xs) - Value(ys)) % Power256(|xs|)
            && (r.m.f.c <==> Value(xs) >= Value(ys))
            && (r.m.f.v <==> !Fits(TwosComplement(xs) - TwosComplement(ys), |xs|))
  {
    hide Run, Value, SignedValue, Fits;
    var r := Run(SBC, m, xs, ys);
    SignedValueIsTwosComplement(xs);
    SignedValueIsTwosComplement(ys);
    SubtractChain(m, xs, ys);
    ValueBound(r.out);
    SmallRemainder(Value(xs) - Value(ys), Power256(|xs|), Value(r.out));
    SubtractOverflow(m, xs, ys);
  }
}
