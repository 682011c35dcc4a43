/**
 The instruction set described by relations instead of computations: sums and shifts by
 conservation, logic and flags bit by bit, wrapping by congruence, memory byte by byte. An
 instruction executes to a state exactly when the description admits that state.
 */
module InstructionLaws {
  import opened Bytes
  import opened Cpu6502
  import opened Isa
  import opened ByteBits

  /** `r` is `sum`, less one `size` when that does not fit. */
  predicate Wraps(sum: int, r: int, size: int) {
    0 <= r < size && (sum == r || sum == r + size)
  }

  /** Negative and zero report `r`; the other flags stay. */
  predicate Reports(f: Flags, g: Flags, r: Byte) {
    g == f.(n := BitAt(r, 7), z := r == 0)
  }

  // ----- addresses -----

  /** The bytes at `p` and the next zero-page address hold the address `ea`, low byte first. */
  ghost predicate PointsTo(bus: Bus, p: int, ea: Address)
    requires 0 <= p < 256
  {
    exists q: Byte :: Wraps(p + 1, q, 256) && ea == bus.mem[p] as int + 256 * bus.mem[q] as int
  }

  /** A zero-page pointer whose own address wraps within the page. */
  ghost predicate PointsFrom(bus: Bus, sum: int, ea: Address) {
    exists p: int :: 0 <= p < 256 && Wraps(sum, p, 256) && PointsTo(bus, p, ea)
  }

  /** An address behind a zero-page pointer, which wraps at the end of memory. */
  ghost predicate PointsBefore(bus: Bus, p: int, index: Byte, ea: Address)
    requires 0 <= p < 256
  {
    exists base: Address :: PointsTo(bus, p, base) && Wraps(base + index, ea, 0x1_0000)
  }

  /** The next place of the same page. */
  predicate NextInPage(a: Address, next: Address) {
    next / 256 == a / 256 && Wraps(a % 256 + 1, next % 256, 256)
  }

  ghost predicate AddressIs(mode: AddrMode, addr: Address, m: Machine, ea: Address) {
    match mode
    case ZeroPage | Absolute => ea == addr
    case ZeroPageX => Wraps(addr + m.x, ea, 256)
    case ZeroPageY => Wraps(addr + m.y, ea, 256)
    case AbsoluteX => Wraps(addr + m.x, ea, 0x1_0000)
    case AbsoluteY => Wraps(addr + m.y, ea, 0x1_0000)
    case IndirectX => PointsFrom(m.bus, addr + m.x, ea)
    case IndirectY => addr < 256 && PointsBefore(m.bus, addr, m.y, ea)
    case Indirect =>
      exists next: Address :: NextInPage(addr, next) && ea == m.bus.mem[addr] as int + 256 * m.bus.mem[next] as int
    case _ => false
  }

  lemma WrapsByte(sum: int, r: int)
    requires 0 <= sum < 512
    ensures Wraps(sum, r, 256) <==> r == sum % 256
  {
  }

  lemma WrapsWord(sum: int, r: int)
    requires 0 <= sum < 0x2_0000
    ensures Wraps(sum, r, 0x1_0000) <==> r == sum % 0x1_0000
  {
  }

  lemma PointsToIff(bus: Bus, p: int, ea: Address)
    requires 0 <= p < 256
    ensures PointsTo(bus, p, ea) <==> ea == bus.Pointer(p)
  {
    var q: Byte := if p < 255 then p + 1 else 0;
    WrapsByte(p + 1, q);
  }

  lemma PointsFromIff(bus: Bus, sum: int, ea: Address, p: int)
    requires 0 <= sum < 512 && p == sum % 256
    ensures PointsFrom(bus, sum, ea) <==> ea == bus.Pointer(p)
  {
    hide Wraps, PointsTo, Bus.Pointer;
    WrapsByte(sum, p);
    PointsToIff(bus, p, ea);
    if PointsFrom(bus, sum, ea) {
      var q: int :| 0 <= q < 256 && Wraps(sum, q, 256) && PointsTo(bus, q, ea);
      WrapsByte(sum, q);
    }
  }

  lemma PointsBeforeIff(bus: Bus, p: int, index: Byte, ea: Address)
    requires 0 <= p < 256
    ensures PointsBefore(bus, p, index, ea) <==> ea == WrapAddress(bus.Pointer(p) + index)
  {
    hide Wraps, PointsTo, Bus.Pointer;
    var base := bus.Pointer(p);
    PointsToIff(bus, p, base);
    WrapsWord(base + index, ea);
    if PointsBefore(bus, p, index, ea) {
      var other: Address :| PointsTo(bus, p, other) && Wraps(other + index, ea, 0x1_0000);
      PointsToIff(bus, p, other);
    }
  }

  lemma NextInPageIff(a: Address, next: Address)
    ensures NextInPage(a, next) <==> next == if a % 256 == 255 then a - 255 else a + 1
  {
  }

  lemma IndirectIff(addr: Address, m: Machine, ea: Address)
    ensures AddressIs(Indirect, addr, m, ea) <==> ea == EffectiveAddress(Indirect, addr, m)
  {
    hide NextInPage;
    var next: Address := if addr % 256 == 255 then addr - 255 else addr + 1;
    NextInPageIff(addr, next);
    if AddressIs(Indirect, addr, m, ea) {
      var other: Address :| NextInPage(addr, other) && ea == m.bus.mem[addr] as int + 256 * m.bus.mem[other] as int;
      NextInPageIff(addr, other);
    }
  }

  /** The effective address is the one the description admits. */
  lemma AddressIff(mode: AddrMode, addr: Address, m: Machine, ea: Address)
    requires MemoryMode(mode) || mode.Indirect?
    requires OperandMatches(mode, Addr(addr))
    ensures AddressIs(mode, addr, m, ea) <==> ea == EffectiveAddress(mode, addr, m)
  {
    hide Wraps, PointsFrom, PointsBefore, NextInPage, Bus.Pointer;
    match mode
    case ZeroPage | Absolute =>
    case ZeroPageX => WrapsByte(addr + m.x, ea);
    case ZeroPageY => WrapsByte(addr + m.y, ea);
    case AbsoluteX => WrapsWord(addr + m.x, ea);
    case AbsoluteY => WrapsWord(addr + m.y, ea);
    case IndirectX => PointsFromIff(m.bus, addr + m.x, ea, (addr + m.x) % 256);
    case IndirectY => PointsBeforeIff(m.bus, addr, m.y, ea);
    case Indirect => IndirectIff(addr, m, ea);
  }

  // ----- memory -----

  /** The byte at `a` becomes `v` if it is writable; every other byte stays. */
  ghost predicate Wrote(before: Bus, after: Bus, a: Address, v: Byte) {
    && after.romStart == before.romStart
    && forall b: Address :: after.mem[b] == if b == a && a < before.romStart then v else before.mem[b]
  }

  lemma WroteIff(before: Bus, after: Bus, a: Address, v: Byte)
    ensures Wrote(before, after, a, v) <==> after == before.Write(a, v)
  {
    if Wrote(before, after, a, v) {
      assert after.mem == before.Write(a, v).mem;
    }
  }

  /** `v` is stored below the stack pointer's old place, which moves down by one. */
  ghost predicate Pushed(m: Machine, t: Machine, v: Byte) {
    t == m.(sp := t.sp, bus := t.bus) && Wraps(t.sp + 1, m.sp, 256) && Wrote(m.bus, t.bus, 256 + m.sp, v)
  }

  /** The stack pointer moves up by one, onto `v`. */
  ghost predicate Pulled(m: Machine, t: Machine, v: Byte) {
    t == m.(sp := t.sp) && Wraps(m.sp + 1, t.sp, 256) && v == m.bus.mem[256 + t.sp]
  }

  lemma PushedIff(m: Machine, t: Machine, v: Byte)
    ensures Pushed(m, t, v) <==> t == m.Push(v)
  {
    WroteIff(m.bus, t.bus, 256 + m.sp, v);
  }

  lemma PulledIff(m: Machine, t: Machine, v: Byte)
    ensures Pulled(m, t, v) <==> t == m.Drop() && v == m.Top()
  {
    hide Wraps;
    WrapsByte(m.sp as int + 1, t.sp);
  }

  // ----- loads, arithmetic, logic, comparison -----

  /** Result and carry out of an addition; overflow when two operands of one sign give the other sign. */
  predicate Added(a: Byte, v: Byte, f: Flags, r: Byte, g: Flags) {
    && a + v + BitOf(f.c) == r + 256 * BitOf(g.c)
    && (g.v <==> (BitAt(a, 7) <==> BitAt(v, 7)) && (BitAt(r, 7) <==> !BitAt(a, 7)))
    && Reports(f.(c := g.c, v := g.v), g, r)
  }

  /** The same for a subtraction, whose carry is "no borrow"; overflow when the signs differ and the minuend's is lost. */
  predicate Subtracted(a: Byte, v: Byte, f: Flags, r: Byte, g: Flags) {
    && a - v - (1 - BitOf(f.c)) == r - 256 * (1 - BitOf(g.c))
    && (g.v <==> (BitAt(a, 7) <==> !BitAt(v, 7)) && (BitAt(r, 7) <==> !BitAt(a, 7)))
    && Reports(f.(c := g.c, v := g.v), g, r)
  }

  /** A comparison is a subtraction without borrow whose result only the flags see. */
  predicate Compared(reg: Byte, v: Byte, f: Flags, g: Flags) {
    exists r: Byte :: reg - v == r - 256 * (1 - BitOf(g.c)) && Reports(f.(c := g.c), g, r)
  }

  ghost predicate Combined(mn: Mnemonic, a: Byte, v: Byte, r: Byte)
    requires mn.AND? || mn.ORA? || mn.EOR? || mn.SAX?
  {
    forall i: nat :: i < 8 ==>
      (BitAt(r, i) <==> if mn.AND? || mn.SAX? then BitAt(a, i) && BitAt(v, i)
                        else if mn.ORA? then BitAt(a, i) || BitAt(v, i)
                        else BitAt(a, i) != BitAt(v, i))
  }

  /** What an instruction with operand value `v` does. */
  ghost predicate ReadDescribed(mn: Mnemonic, v: Byte, m: Machine, t: Machine)
    requires ReadsOperand(mn)
  {
    match mn
    case LDA => t == m.(a := v, f := t.f) && Reports(m.f, t.f, v)
    case LDX => t == m.(x := v, f := t.f) && Reports(m.f, t.f, v)
    case LDY => t == m.(y := v, f := t.f) && Reports(m.f, t.f, v)
    case LAX => t == m.(a := v, x := v, f := t.f) && Reports(m.f, t.f, v)
    case AND | ORA | EOR => t == m.(a := t.a, f := t.f) && Combined(mn, m.a, v, t.a) && Reports(m.f, t.f, t.a)
    case ADC => t == m.(a := t.a, f := t.f) && Added(m.a, v, m.f, t.a, t.f)
    case SBC => t == m.(a := t.a, f := t.f) && Subtracted(m.a, v, m.f, t.a, t.f)
    case CMP => t == m.(f := t.f) && Compared(m.a, v, m.f, t.f)
    case CPX => t == m.(f := t.f) && Compared(m.x, v, m.f, t.f)
    case CPY => t == m.(f := t.f) && Compared(m.y, v, m.f, t.f)
  }

  lemma ReportsIff(m: Machine, r: Byte, g: Flags)
    ensures Reports(m.f, g, r) <==> g == m.WithNZ(r).f
  {
    SignPlace(r);
  }

  /** A byte that differs from a sum by a multiple of 256 is its low byte. */
  lemma LowByte(sum: int, r: Byte, k: int)
    requires sum == r + 256 * k
    ensures WrapByte(sum) == r
  {
  }

  lemma OverflowOfSum(a: Byte, v: Byte, c: int, r: Byte, k: int)
    requires 0 <= c <= 1 && 0 <= k <= 1 && a + v + c == r + 256 * k
    ensures !(-128 <= Signed(a) + Signed(v) + c < 128) <==> (a >= 128 <==> v >= 128) && (r >= 128 <==> a < 128)
  {
  }

  lemma OverflowOfDifference(a: Byte, v: Byte, b: int, r: Byte, k: int)
    requires 0 <= b <= 1 && 0 <= k <= 1 && a - v - b == r - 256 * k
    ensures !(-128 <= Signed(a) - Signed(v) - b < 128) <==> (a >= 128 <==> v < 128) && (r >= 128 <==> a < 128)
  {
  }

  /** A byte and a carry are determined by their weighted sum. */
  lemma CarryIsUnique(r: Byte, e: Byte, b: bool, c: bool)
    requires r + 256 * BitOf(b) == e + 256 * BitOf(c)
    ensures r == e && b == c
  {
  }

  lemma AdcIs(m: Machine, v: Byte, e: Byte, c: bool)
    requires m.a + v + BitOf(m.f.c) == e + 256 * BitOf(c)
    ensures m.Adc(v).a == e && m.Adc(v).f.c == c
    ensures m.Adc(v).f.v <==> (BitAt(m.a, 7) <==> BitAt(v, 7)) && (BitAt(e, 7) <==> !BitAt(m.a, 7))
    ensures Reports(m.f.(c := m.Adc(v).f.c, v := m.Adc(v).f.v), m.Adc(v).f, e)
  {
    hide BitAt, WrapByte, Signed;
    SignPlace(m.a);
    SignPlace(v);
    SignPlace(e);
    LowByte(m.a + v + BitOf(m.f.c), e, BitOf(c));
    OverflowOfSum(m.a, v, BitOf(m.f.c), e, BitOf(c));
  }

  lemma AddedIff(m: Machine, v: Byte, r: Byte, g: Flags)
    ensures Added(m.a, v, m.f, r, g) <==> r == m.Adc(v).a && g == m.Adc(v).f
  {
    hide BitAt, Machine.Adc;
    var sum := m.a + v + BitOf(m.f.c);
    var c, e: Byte := sum >= 256, if sum >= 256 then sum - 256 else sum;
    AdcIs(m, v, e, c);
    if Added(m.a, v, m.f, r, g) {
      CarryIsUnique(r, e, g.c, c);
    }
  }

  lemma SbcIs(m: Machine, v: Byte, e: Byte, c: bool)
    requires m.a - v - (1 - BitOf(m.f.c)) == e - 256 * (1 - BitOf(c))
    ensures m.Sbc(v).a == e && m.Sbc(v).f.c == c
    ensures m.Sbc(v).f.v <==> (BitAt(m.a, 7) <==> !BitAt(v, 7)) && (BitAt(e, 7) <==> !BitAt(m.a, 7))
    ensures Reports(m.f.(c := m.Sbc(v).f.c, v := m.Sbc(v).f.v), m.Sbc(v).f, e)
  {
    hide BitAt, WrapByte, Signed;
    SignPlace(m.a);
    SignPlace(v);
    SignPlace(e);
    LowByte(m.a - v - (1 - BitOf(m.f.c)), e, BitOf(c) - 1);
    OverflowOfDifference(m.a, v, 1 - BitOf(m.f.c), e, 1 - BitOf(c));
  }

  lemma SubtractedIff(m: Machine, v: Byte, r: Byte, g: Flags)
    ensures Subtracted(m.a, v, m.f, r, g) <==> r == m.Sbc(v).a && g == m.Sbc(v).f
  {
    hide BitAt, Machine.Sbc;
    var difference := m.a - v - (1 - BitOf(m.f.c));
    var c, e: Byte := difference >= 0, if difference < 0 then difference + 256 else difference;
    SbcIs(m, v, e, c);
    if Subtracted(m.a, v, m.f, r, g) {
      CarryIsUnique(r, e, g.c, c);
    }
  }

  lemma ComparedIff(m: Machine, reg: Byte, v: Byte, g: Flags)
    ensures Compared(reg, v, m.f, g) <==> g == m.Compare(reg, v).f
  {
    hide BitAt, WrapByte;
    var r: Byte := if reg >= v then reg - v else reg - v + 256;
    LowByte(reg - v, r, if reg >= v then 0 else -1);
    SignPlace(r);
    if g == m.Compare(reg, v).f {
      assert reg - v == r - 256 * (1 - BitOf(g.c)) && Reports(m.f.(c := g.c), g, r);
    }
  }

  lemma CombinedIff(mn: Mnemonic, a: Byte, v: Byte, r: Byte)
    requires mn.AND? || mn.ORA? || mn.EOR? || mn.SAX?
    ensures Combined(mn, a, v, r) <==> r == if mn.AND? || mn.SAX? then And8(a, v) else if mn.ORA? then Or8(a, v) else Xor8(a, v)
  {
    hide And8, Or8, Xor8, BitAt;
    var e := if mn.AND? || mn.SAX? then And8(a, v) else if mn.ORA? then Or8(a, v) else Xor8(a, v);
    forall i: nat
      ensures BitAt(e, i) <==> if mn.AND? || mn.SAX? then BitAt(a, i) && BitAt(v, i)
                               else if mn.ORA? then BitAt(a, i) || BitAt(v, i)
                               else BitAt(a, i) != BitAt(v, i)
    {
      BitwisePlaces(a, v, i);
    }
    if Combined(mn, a, v, r) {
      SameBits(r, e);
    }
  }

  lemma ReadIff(mn: Mnemonic, v: Byte, m: Machine, t: Machine)
    requires ReadsOperand(mn)
    ensures ReadDescribed(mn, v, m, t) <==> t == ExecuteRead(mn, v, m)
  {
    match mn
    case LDA | LDX | LDY | LAX => ReportsIff(m, v, t.f);
    case AND | ORA | EOR => CombinedIff(mn, m.a, v, t.a); ReportsIff(m, t.a, t.f);
    case ADC => AddedIff(m, v, t.a, t.f);
    case SBC => SubtractedIff(m, v, t.a, t.f);
    case CMP => ComparedIff(m, m.a, v, t.f);
    case CPX => ComparedIff(m, m.x, v, t.f);
    case CPY => ComparedIff(m, m.y, v, t.f);
  }

  // ----- shifts and memory -----

  /** What goes in comes out: the bits of `v` and the old carry are those of `r` and the new carry, one place moved. */
  predicate Shifted(op: ShiftOp, v: Byte, carry: bool, r: Byte, out: bool) {
    match op
    case Asl => 2 * v == r + 256 * BitOf(out)
    case Lsr => v == 2 * r + BitOf(out)
    case Rol => 2 * v + BitOf(carry) == r + 256 * BitOf(out)
    case Ror => v + 256 * BitOf(carry) == 2 * r + BitOf(out)
  }

  lemma ShiftedIff(op: ShiftOp, v: Byte, carry: bool, r: Byte, out: bool)
    ensures Shifted(op, v, carry, r, out) <==> Shift(op, v, carry) == (r, out)
  {
    assert v == 2 * (v / 2) + v % 2;
  }

  /** What a combined instruction writes back for the byte it read. */
  predicate Rewritten(mn: Mnemonic, v: Byte, carry: bool, w: Byte, out: bool)
    requires IsRmwPair(mn)
  {
    match mn
    case DCP => Wraps(w + 1, v, 256) && out == carry
    case ISC => Wraps(v + 1, w, 256) && out == carry
    case SLO => Shifted(Asl, v, carry, w, out)
    case RLA => Shifted(Rol, v, carry, w, out)
    case SRE => Shifted(Lsr, v, carry, w, out)
    case RRA => Shifted(Ror, v, carry, w, out)
  }

  /** The operand-reading instruction a combined one ends with. */
  function Second(mn: Mnemonic): Mnemonic
    requires IsRmwPair(mn)
  {
    match mn
    case DCP => CMP
    case ISC => SBC
    case SLO => ORA
    case RLA => AND
    case SRE => EOR
    case RRA => ADC
  }

  /** The state between the two halves. */
  ghost predicate Halfway(mn: Mnemonic, ea: Address, m: Machine, w: Byte, u: Machine)
    requires IsRmwPair(mn)
  {
    && Rewritten(mn, m.bus.mem[ea], m.f.c, w, u.f.c)
    && u == m.(bus := u.bus, f := m.f.(c := u.f.c)) && Wrote(m.bus, u.bus, ea, w)
  }

  /** A byte is rewritten, and the second instruction runs on it. */
  ghost predicate RmwDescribed(mn: Mnemonic, ea: Address, m: Machine, t: Machine)
    requires IsRmwPair(mn)
  {
    exists w: Byte, u: Machine :: Halfway(mn, ea, m, w, u) && ReadDescribed(Second(mn), w, u, t)
  }

  /** What an instruction does to the memory operand at `ea`. */
  ghost predicate MemoryDescribed(mn: Mnemonic, ea: Address, m: Machine, t: Machine)
    requires AlwaysMemory(mn)
  {
    match mn
    case STA => t == m.(bus := t.bus) && Wrote(m.bus, t.bus, ea, m.a)
    case STX => t == m.(bus := t.bus) && Wrote(m.bus, t.bus, ea, m.x)
    case STY => t == m.(bus := t.bus) && Wrote(m.bus, t.bus, ea, m.y)
    case SAX => t == m.(bus := t.bus) && exists v: Byte :: Combined(SAX, m.a, m.x, v) && Wrote(m.bus, t.bus, ea, v)
    case INC => StepDescribed(m, t, ea, 1)
    case DEC => StepDescribed(m, t, ea, -1)
    case BIT =>
      var v := m.bus.mem[ea];
      t == m.(f := m.f.(n := BitAt(v, 7), v := BitAt(v, 6), z := Disjoint(m.a, v)))
    case _ => RmwDescribed(mn, ea, m, t)
  }

  /** The byte at `ea` goes up or down by one, around 256, and is reported. */
  ghost predicate StepDescribed(m: Machine, t: Machine, ea: Address, delta: int) {
    exists v: Byte ::
      && (if delta > 0 then Wraps(m.bus.mem[ea] as int + 1, v, 256) else Wraps(v + 1, m.bus.mem[ea], 256))
      && t == m.(bus := t.bus, f := t.f) && Wrote(m.bus, t.bus, ea, v) && Reports(m.f, t.f, v)
  }

  ghost predicate ShiftDescribed(op: ShiftOp, ea: Address, m: Machine, t: Machine) {
    exists r: Byte ::
      && Shifted(op, m.bus.mem[ea], m.f.c, r, t.f.c)
      && t == m.(bus := t.bus, f := t.f) && Wrote(m.bus, t.bus, ea, r) && Reports(m.f.(c := t.f.c), t.f, r)
  }

  ghost predicate ShiftADescribed(op: ShiftOp, m: Machine, t: Machine) {
    && Shifted(op, m.a, m.f.c, t.a, t.f.c)
    && t == m.(a := t.a, f := t.f) && Reports(m.f.(c := t.f.c), t.f, t.a)
  }

  lemma StepsUp(v: Byte, w: Byte)
    ensures Wraps(v + 1, w, 256) <==> w == WrapByte(v + 1)
  {
    WrapsByte(v + 1, w);
  }

  lemma StepsDown(v: Byte, w: Byte)
    ensures Wraps(v + 1, w, 256) <==> v == WrapByte(w - 1)
  {
    hide WrapByte;
    LowByte(w - 1, if w > 0 then w - 1 else 255, if w > 0 then 0 else -1);
  }

  lemma SteppedIff(m: Machine, t: Machine, ea: Address, delta: int)
    requires delta == 1 || delta == -1
    ensures StepDescribed(m, t, ea, delta) <==> t == m.StepMem(ea, delta)
  {
    hide WrapByte, BitAt, Wraps, Wrote, Bus.Write;
    var before := m.bus.mem[ea];
    forall v: Byte
      ensures (if delta > 0 then Wraps(before + 1, v, 256) else Wraps(v + 1, before, 256)) <==> v == WrapByte(before + delta)
      ensures Wrote(m.bus, t.bus, ea, v) <==> t.bus == m.bus.Write(ea, v)
      ensures Reports(m.f, t.f, v) <==> t.f == m.WithNZ(v).f
    {
      StepsUp(before, v);
      StepsDown(v, before);
      WroteIff(m.bus, t.bus, ea, v);
      ReportsIff(m, v, t.f);
    }
  }

  lemma ShiftIff(op: ShiftOp, ea: Address, m: Machine, t: Machine)
    ensures ShiftDescribed(op, ea, m, t) <==> t == m.ShiftMem(op, ea)
  {
    hide Shift, Shifted, BitAt, Wrote, Bus.Write;
    var (r, c) := Shift(op, m.bus.mem[ea], m.f.c);
    ShiftedIff(op, m.bus.mem[ea], m.f.c, r, t.f.c);
    WroteIff(m.bus, t.bus, ea, r);
    ReportsIff(m.(f := m.f.(c := t.f.c)), r, t.f);
    if ShiftDescribed(op, ea, m, t) {
      var s: Byte :| Shifted(op, m.bus.mem[ea], m.f.c, s, t.f.c) && t == m.(bus := t.bus, f := t.f)
                     && Wrote(m.bus, t.bus, ea, s) && Reports(m.f.(c := t.f.c), t.f, s);
      ShiftedIff(op, m.bus.mem[ea], m.f.c, s, t.f.c);
    }
  }

  lemma ShiftAIff(op: ShiftOp, m: Machine, t: Machine)
    ensures ShiftADescribed(op, m, t) <==> t == m.ShiftA(op)
  {
    hide Shift, Shifted, Reports, Machine.ShiftA;
    var (r, c) := Shift(op, m.a, m.f.c);
    ShiftedIff(op, m.a, m.f.c, t.a, t.f.c);
    ShiftAIs(op, m, r, c);
    ReportsIff(m.(f := m.f.(c := c)), r, t.f);
  }

  lemma ShiftAIs(op: ShiftOp, m: Machine, r: Byte, c: bool)
    requires Shift(op, m.a, m.f.c) == (r, c)
    ensures m.ShiftA(op) == m.(a := r, f := m.(f := m.f.(c := c)).WithNZ(r).f) && m.ShiftA(op).f.c == c
  {
  }

  lemma RewrittenIff(mn: Mnemonic, ea: Address, m: Machine, w: Byte, out: bool)
    requires IsRmwPair(mn)
    ensures Rewritten(mn, m.bus.mem[ea], m.f.c, w, out) <==> RmwWrite(mn, ea, m) == (w, out)
  {
    hide Shifted, Shift, Wraps, WrapByte;
    var v := m.bus.mem[ea];
    match mn
    case DCP => StepsDown(w, v);
    case ISC => StepsUp(v, w);
    case SLO => ShiftedIff(Asl, v, m.f.c, w, out);
    case RLA => ShiftedIff(Rol, v, m.f.c, w, out);
    case SRE => ShiftedIff(Lsr, v, m.f.c, w, out);
    case RRA => ShiftedIff(Ror, v, m.f.c, w, out);
  }

  lemma SecondIff(mn: Mnemonic, w: Byte, u: Machine)
    requires IsRmwPair(mn)
    ensures ReadsOperand(Second(mn)) && RmwCombine(mn, w, u) == ExecuteRead(Second(mn), w, u)
  {
  }

  lemma HalfwayIff(mn: Mnemonic, ea: Address, m: Machine, w: Byte, u: Machine)
    requires IsRmwPair(mn)
    ensures Halfway(mn, ea, m, w, u) <==>
              var half := RmwWrite(mn, ea, m);
              w == half.0 && u == m.(f := m.f.(c := half.1)).Store(ea, w)
  {
    hide Rewritten, RmwWrite, Wrote, Bus.Write;
    RewrittenIff(mn, ea, m, w, u.f.c);
    WroteIff(m.bus, u.bus, ea, w);
  }

  lemma RmwIff(mn: Mnemonic, ea: Address, m: Machine, t: Machine)
    requires IsRmwPair(mn)
    ensures RmwDescribed(mn, ea, m, t) <==> t == Rmw(mn, ea, m)
  {
    hide Halfway, RmwWrite, RmwCombine, ReadDescribed, ExecuteRead, Second, Machine.Store;
    var (w, c) := RmwWrite(mn, ea, m);
    var u := m.(f := m.f.(c := c)).Store(ea, w);
    HalfwayIff(mn, ea, m, w, u);
    SecondIff(mn, w, u);
    ReadIff(Second(mn), w, u, t);
    if RmwDescribed(mn, ea, m, t) {
      var w': Byte, u': Machine :| Halfway(mn, ea, m, w', u') && ReadDescribed(Second(mn), w', u', t);
      HalfwayIff(mn, ea, m, w', u');
    }
  }

  /** BIT copies the operand's two top bits and reports whether A shares a set bit with it. */
  lemma BitIff(m: Machine, v: Byte, t: Machine)
    ensures t == m.(f := m.f.(n := BitAt(v, 7), v := BitAt(v, 6), z := Disjoint(m.a, v))) <==> t == m.Bit(v)
  {
    hide BitAt, Disjoint, And8;
    SignPlace(v);
    SecondPlace(v);
    NoSharedBit(m.a, v);
  }

  lemma SaxIff(m: Machine, ea: Address, t: Machine)
    ensures MemoryDescribed(SAX, ea, m, t) <==> t == m.Store(ea, And8(m.a, m.x))
  {
    hide Combined, Wrote, And8, Bus.Write;
    var v := And8(m.a, m.x);
    CombinedIff(SAX, m.a, m.x, v);
    WroteIff(m.bus, t.bus, ea, v);
    if MemoryDescribed(SAX, ea, m, t) {
      var w: Byte :| Combined(SAX, m.a, m.x, w) && Wrote(m.bus, t.bus, ea, w);
      CombinedIff(SAX, m.a, m.x, w);
    }
  }

  lemma MemoryIff(mn: Mnemonic, ea: Address, m: Machine, t: Machine)
    requires AlwaysMemory(mn)
    ensures MemoryDescribed(mn, ea, m, t) <==> t == ExecuteMemory(mn, ea, m)
  {
    hide RmwDescribed, Rmw, StepDescribed, Machine.StepMem, Machine.Bit, Wrote, BitAt, Disjoint, And8, Combined, Bus.Write;
    match mn
    case STA => WroteIff(m.bus, t.bus, ea, m.a);
    case STX => WroteIff(m.bus, t.bus, ea, m.x);
    case STY => WroteIff(m.bus, t.bus, ea, m.y);
    case SAX => SaxIff(m, ea, t);
    case INC => SteppedIff(m, t, ea, 1);
    case DEC => SteppedIff(m, t, ea, -1);
    case BIT => BitIff(m, m.bus.mem[ea], t);
    case DCP | ISC | SLO | RLA | SRE | RRA => RmwIff(mn, ea, m, t);
  }

  // ----- registers, flags and the stack -----

  /** The status byte pushed: every flag in its place, with B and U set. */
  ghost predicate StatusPushed(f: Flags, p: Byte) {
    && BitAt(p, 0) == f.c && BitAt(p, 1) == f.z && BitAt(p, 2) == f.i && BitAt(p, 3) == f.d
    && BitAt(p, 4) && BitAt(p, 5) && BitAt(p, 6) == f.v && BitAt(p, 7) == f.n
  }

  /** The flags a status byte sets when pulled: every place its flag, except B, which is clear, and U, which is set. */
  predicate StatusPulled(p: Byte, g: Flags) {
    g == Flags(BitAt(p, 0), BitAt(p, 1), BitAt(p, 2), BitAt(p, 3), false, true, BitAt(p, 6), BitAt(p, 7))
  }

  lemma StatusPushedIff(f: Flags, p: Byte)
    ensures StatusPushed(f, p) <==> p == FlagsByte(f.(b := true, u := true))
  {
    hide BitAt, FlagsByte;
    var e := FlagsByte(f.(b := true, u := true));
    StatusPlaces(f.(b := true, u := true));
    if StatusPushed(f, p) {
      SameBits(p, e);
    }
  }

  lemma StatusPulledIff(p: Byte, g: Flags)
    ensures StatusPulled(p, g) <==> g == ByteFlags(p).(b := false, u := true)
  {
    hide BitAt, ByteFlags;
    FlagPlaces(p);
  }

  ghost predicate PhpDescribed(m: Machine, t: Machine) {
    exists p: Byte :: StatusPushed(m.f, p) && Pushed(m, t, p)
  }

  ghost predicate PlaDescribed(m: Machine, t: Machine) {
    exists u: Machine :: Pulled(m, u, t.a) && t == u.(a := t.a, f := t.f) && Reports(m.f, t.f, t.a)
  }

  ghost predicate PlpDescribed(m: Machine, t: Machine) {
    exists p: Byte, u: Machine :: Pulled(m, u, p) && t == u.(f := t.f) && StatusPulled(p, t.f)
  }

  ghost predicate ImpliedDescribed(mn: Mnemonic, m: Machine, t: Machine)
    requires IsImplied(mn)
  {
    match mn
    case TAX => t == m.(x := m.a, f := t.f) && Reports(m.f, t.f, m.a)
    case TAY => t == m.(y := m.a, f := t.f) && Reports(m.f, t.f, m.a)
    case TXA => t == m.(a := m.x, f := t.f) && Reports(m.f, t.f, m.x)
    case TYA => t == m.(a := m.y, f := t.f) && Reports(m.f, t.f, m.y)
    case TSX => t == m.(x := m.sp, f := t.f) && Reports(m.f, t.f, m.sp)
    case TXS => t == m.(sp := m.x)
    case PHA => Pushed(m, t, m.a)
    case PHP => PhpDescribed(m, t)
    case PLA => PlaDescribed(m, t)
    case PLP => PlpDescribed(m, t)
    case INX => t == m.(x := t.x, f := t.f) && Wraps(m.x + 1, t.x, 256) && Reports(m.f, t.f, t.x)
    case INY => t == m.(y := t.y, f := t.f) && Wraps(m.y + 1, t.y, 256) && Reports(m.f, t.f, t.y)
    case DEX => t == m.(x := t.x, f := t.f) && Wraps(t.x + 1, m.x, 256) && Reports(m.f, t.f, t.x)
    case DEY => t == m.(y := t.y, f := t.f) && Wraps(t.y + 1, m.y, 256) && Reports(m.f, t.f, t.y)
    case CLC | CLI | CLV | CLD => t == m.(f := t.f) && OnlyPlace(m.f, t.f, PlaceOf(mn), false)
    case SEC | SEI | SED => t == m.(f := t.f) && OnlyPlace(m.f, t.f, PlaceOf(mn), true)
    case NOP => t == m
  }

  /** The status bit a flag instruction names. */
  function PlaceOf(mn: Mnemonic): (i: nat)
    ensures i < 8
  {
    if mn.CLC? || mn.SEC? then 0 else if mn.CLI? || mn.SEI? then 2 else if mn.CLD? || mn.SED? then 3 else 6
  }

  /** The status byte gets the given bit at one place and keeps the others. */
  ghost predicate OnlyPlace(f: Flags, g: Flags, place: nat, bit: bool) {
    forall i: nat :: i < 8 ==> (BitAt(FlagsByte(g), i) <==> if i == place then bit else BitAt(FlagsByte(f), i))
  }

  /** The flags with the one named by a place changed. */
  function WithPlace(f: Flags, place: nat, bit: bool): Flags {
    match place
    case 0 => f.(c := bit)
    case 2 => f.(i := bit)
    case 3 => f.(d := bit)
    case _ => f.(v := bit)
  }

  /** The flag at a place of the status byte. */
  function FlagAt(f: Flags, i: nat): bool {
    match i
    case 0 => f.c
    case 1 => f.z
    case 2 => f.i
    case 3 => f.d
    case 4 => f.b
    case 5 => f.u
    case 6 => f.v
    case _ => f.n
  }

  lemma FlagAtPlace(f: Flags, i: nat)
    requires i < 8
    ensures BitAt(FlagsByte(f), i) == FlagAt(f, i)
  {
    hide BitAt, FlagsByte;
    StatusPlaces(f);
  }

  lemma WithPlacePlaces(f: Flags, place: nat, bit: bool)
    requires place == 0 || place == 2 || place == 3 || place == 6
    ensures OnlyPlace(f, WithPlace(f, place, bit), place, bit)
  {
    hide BitAt, FlagsByte;
    forall i: nat | i < 8
      ensures BitAt(FlagsByte(WithPlace(f, place, bit)), i) <==> if i == place then bit else BitAt(FlagsByte(f), i)
    {
      FlagAtPlace(f, i);
      FlagAtPlace(WithPlace(f, place, bit), i);
    }
  }

  lemma OnlyPlaceIff(f: Flags, g: Flags, place: nat, bit: bool)
    requires place == 0 || place == 2 || place == 3 || place == 6
    ensures OnlyPlace(f, g, place, bit) <==> g == WithPlace(f, place, bit)
  {
    hide BitAt, FlagsByte, ByteFlags, WithPlace;
    var e := WithPlace(f, place, bit);
    WithPlacePlaces(f, place, bit);
    if OnlyPlace(f, g, place, bit) {
      SameBits(FlagsByte(g), FlagsByte(e));
      UnpackPacked(g);
      UnpackPacked(e);
    }
  }

  lemma FlagIff(mn: Mnemonic, m: Machine, t: Machine)
    requires mn.CLC? || mn.CLI? || mn.CLV? || mn.CLD? || mn.SEC? || mn.SEI? || mn.SED?
    ensures ImpliedDescribed(mn, m, t) <==> t == ExecuteImplied(mn, m)
  {
    hide OnlyPlace;
    OnlyPlaceIff(m.f, t.f, PlaceOf(mn), mn.SEC? || mn.SEI? || mn.SED?);
  }

  lemma PhpIff(m: Machine, t: Machine)
    ensures PhpDescribed(m, t) <==> t == m.Push(FlagsByte(m.f.(b := true, u := true)))
  {
    hide StatusPushed, Pushed, FlagsByte, Machine.Push;
    var e := FlagsByte(m.f.(b := true, u := true));
    StatusPushedIff(m.f, e);
    PushedIff(m, t, e);
    if PhpDescribed(m, t) {
      var p: Byte :| StatusPushed(m.f, p) && Pushed(m, t, p);
      StatusPushedIff(m.f, p);
    }
  }

  lemma PlaIff(m: Machine, t: Machine)
    ensures PlaDescribed(m, t) <==> t == m.Drop().LoadA(m.Top())
  {
    hide Pulled, Reports, Machine.Top, WrapByte;
    PulledIff(m, m.Drop(), t.a);
    ReportsIff(m, t.a, t.f);
    if PlaDescribed(m, t) {
      var u: Machine :| Pulled(m, u, t.a) && t == u.(a := t.a, f := t.f) && Reports(m.f, t.f, t.a);
      PulledIff(m, u, t.a);
    }
  }

  lemma PlpIff(m: Machine, t: Machine)
    ensures PlpDescribed(m, t) <==> t == m.Drop().(f := ByteFlags(m.Top()).(b := false, u := true))
  {
    hide Pulled, StatusPulled, Machine.Top, WrapByte, ByteFlags;
    PulledIff(m, m.Drop(), m.Top());
    StatusPulledIff(m.Top(), t.f);
    if PlpDescribed(m, t) {
      var p: Byte, u: Machine :| Pulled(m, u, p) && t == u.(f := t.f) && StatusPulled(p, t.f);
      PulledIff(m, u, p);
    }
  }

  lemma ImpliedIff(mn: Mnemonic, m: Machine, t: Machine)
    requires IsImplied(mn)
    ensures ImpliedDescribed(mn, m, t) <==> t == ExecuteImplied(mn, m)
  {
    hide Pushed, PhpDescribed, PlaDescribed, PlpDescribed, OnlyPlace, BitAt, Wraps, WrapByte, FlagsByte, ByteFlags, Machine.Push;
    match mn
    case TAX | TAY => ReportsIff(m, m.a, t.f);
    case TXA => ReportsIff(m, m.x, t.f);
    case TYA => ReportsIff(m, m.y, t.f);
    case TSX => ReportsIff(m, m.sp, t.f);
    case TXS | NOP =>
    case PHA => PushedIff(m, t, m.a);
    case PHP => PhpIff(m, t);
    case PLA => PlaIff(m, t);
    case PLP => PlpIff(m, t);
    case INX => StepsUp(m.x, t.x); ReportsIff(m, t.x, t.f);
    case INY => StepsUp(m.y, t.y); ReportsIff(m, t.y, t.f);
    case DEX => StepsDown(t.x, m.x); ReportsIff(m, t.x, t.f);
    case DEY => StepsDown(t.y, m.y); ReportsIff(m, t.y, t.f);
    case CLC | CLI | CLV | CLD | SEC | SEI | SED => FlagIff(mn, m, t);
  }

  // ----- control -----

  /** A word is pushed high byte first. */
  ghost predicate WordPushed(m: Machine, t: Machine, w: Address) {
    exists hi: Byte, lo: Byte, u: Machine :: w == lo as int + 256 * hi as int && Pushed(m, u, hi) && Pushed(u, t, lo)
  }

  /** And pulled low byte first. */
  ghost predicate WordPulled(m: Machine, t: Machine, w: Address) {
    exists hi: Byte, lo: Byte, u: Machine :: w == lo as int + 256 * hi as int && Pulled(m, u, lo) && Pulled(u, t, hi)
  }

  lemma TwoBytes(w: Address, lo: Byte, hi: Byte)
    ensures w == lo as int + 256 * hi as int <==> lo == Low(w) && hi == High(w)
    ensures w == lo as int + 256 * hi as int <==> w == Word(lo, hi)
  {
  }

  lemma WordPushedIff(m: Machine, t: Machine, w: Address)
    ensures WordPushed(m, t, w) <==> t == m.PushWord(w)
  {
    hide Pushed, Machine.Push, Low, High, Word;
    var hi, lo := High(w), Low(w);
    TwoBytes(w, lo, hi);
    PushedIff(m, m.Push(hi), hi);
    PushedIff(m.Push(hi), t, lo);
    if WordPushed(m, t, w) {
      var hi': Byte, lo': Byte, u: Machine :| w == lo' as int + 256 * hi' as int && Pushed(m, u, hi') && Pushed(u, t, lo');
      TwoBytes(w, lo', hi');
      PushedIff(m, u, hi');
    }
  }

  lemma WordPulledIff(m: Machine, t: Machine, w: Address)
    ensures WordPulled(m, t, w) <==> t == m.Drop().Drop() && w == m.TopWord()
  {
    hide Pulled, Machine.Drop, Machine.Top, Low, High, Word;
    var u, lo, hi := m.Drop(), m.Top(), m.Drop().Top();
    PulledIff(m, u, lo);
    PulledIff(u, t, hi);
    TwoBytes(w, lo, hi);
    if WordPulled(m, t, w) {
      var hi': Byte, lo': Byte, u': Machine :| w == lo' as int + 256 * hi' as int && Pulled(m, u', lo') && Pulled(u', t, hi');
      PulledIff(m, u', lo');
      PulledIff(u', t, hi');
    }
  }

  ghost predicate JsrDescribed(m: Machine, next: Address, t: Machine) {
    exists w: Address :: Wraps(w as int + 1, next, 0x1_0000) && WordPushed(m, t, w)
  }

  ghost predicate RtsDescribed(m: Machine, t: Cpu) {
    exists w: Address :: WordPulled(m, t.m, w) && Wraps(w as int + 1, t.pc, 0x1_0000)
  }

  ghost predicate RtiDescribed(m: Machine, t: Cpu) {
    exists p: Byte, u: Machine, g: Flags :: Pulled(m, u, p) && StatusPulled(p, g) && WordPulled(u.(f := g), t.m, t.pc)
  }

  /** The word at $FFFE. */
  ghost predicate VectorIs(bus: Bus, w: Address) {
    w == bus.mem[0xFFFE] as int + 256 * bus.mem[0xFFFF] as int
  }

  ghost predicate BrkDescribed(m: Machine, next: Address, t: Cpu) {
    exists p: Byte, u: Machine, s: Machine ::
      WordPushed(m, u, next) && StatusPushed(m.f, p) && Pushed(u, s, p) && t.m == s.(f := s.f.(i := true)) && VectorIs(s.bus, t.pc)
  }

  /** The status bit a branch tests, and the value it wants. */
  predicate Wants(mn: Mnemonic, f: Flags)
    requires Branches(mn)
  {
    var place := if mn.BPL? || mn.BMI? then 7 else if mn.BVC? || mn.BVS? then 6 else if mn.BCC? || mn.BCS? then 0 else 1;
    BitAt(FlagsByte(f), place) == (mn.BMI? || mn.BVS? || mn.BCS? || mn.BEQ?)
  }

  /** `offset` read with its top bit as -128, added around the end of memory. */
  predicate Offset(next: Address, offset: Byte, pc: Address) {
    var sum := next + offset - if BitAt(offset, 7) then 256 else 0;
    pc == sum || pc == sum + 0x1_0000 || pc == sum - 0x1_0000
  }

  ghost predicate ControlDescribed(insn: Instruction, m: Machine, next: Address, t: Cpu)
    requires insn.Valid() && !Straight(insn.mnemonic) && !Unstable(insn.mnemonic) && !insn.mnemonic.JAM?
  {
    match insn.mnemonic
    case JMP => t.m == m && AddressIs(insn.mode, insn.operand.addr, m, t.pc)
    case JSR => insn.operand == Operand.Addr(t.pc) && JsrDescribed(m, next, t.m)
    case RTS => RtsDescribed(m, t)
    case RTI => RtiDescribed(m, t)
    case BRK => BrkDescribed(m, next, t)
    case BCC | BCS | BEQ | BNE | BMI | BPL | BVC | BVS =>
      t.m == m && if Wants(insn.mnemonic, m.f) then Offset(next, insn.operand.offset, t.pc) else t.pc == next
  }

  lemma JsrIff(m: Machine, next: Address, t: Machine)
    ensures JsrDescribed(m, next, t) <==> t == m.PushWord(WrapAddress(next - 1))
  {
    hide WordPushed, Machine.PushWord;
    var w := WrapAddress(next - 1);
    assert Wraps(w as int + 1, next, 0x1_0000);
    WordPushedIff(m, t, w);
    if JsrDescribed(m, next, t) {
      var v: Address :| Wraps(v as int + 1, next, 0x1_0000) && WordPushed(m, t, v);
      assert v == w;
    }
  }

  lemma RtsIff(m: Machine, t: Cpu)
    ensures RtsDescribed(m, t) <==> t == Cpu(WrapAddress(m.TopWord() + 1), m.Drop().Drop())
  {
    hide WordPulled, Machine.Drop, Machine.TopWord;
    var w := m.TopWord();
    WordPulledIff(m, t.m, w);
    WrapsWord(w as int + 1, t.pc);
    if RtsDescribed(m, t) {
      var v: Address :| WordPulled(m, t.m, v) && Wraps(v as int + 1, t.pc, 0x1_0000);
      WordPulledIff(m, t.m, v);
    }
  }

  lemma RtiIff(m: Machine, t: Cpu)
    ensures RtiDescribed(m, t) <==>
              var u := m.Drop().(f := ByteFlags(m.Top()).(b := false, u := true));
              t == Cpu(u.TopWord(), u.Drop().Drop())
  {
    hide Pulled, StatusPulled, WordPulled, Machine.Drop, Machine.Top, Machine.TopWord, ByteFlags;
    var p, u, g := m.Top(), m.Drop(), ByteFlags(m.Top()).(b := false, u := true);
    PulledIff(m, u, p);
    StatusPulledIff(p, g);
    WordPulledIff(u.(f := g), t.m, t.pc);
    if RtiDescribed(m, t) {
      var p': Byte, u': Machine, g': Flags :| Pulled(m, u', p') && StatusPulled(p', g') && WordPulled(u'.(f := g'), t.m, t.pc);
      PulledIff(m, u', p');
      StatusPulledIff(p', g');
    }
  }

  lemma BrkIff(m: Machine, next: Address, t: Cpu)
    ensures BrkDescribed(m, next, t) <==>
              var u := m.PushWord(next);
              var s := u.Push(FlagsByte(u.f.(b := true, u := true)));
              t == Cpu(Word(s.bus.Read(0xFFFE), s.bus.Read(0xFFFF)), s.(f := s.f.(i := true)))
  {
    hide WordPushed, StatusPushed, Pushed, Machine.Push, Machine.PushWord, FlagsByte, Word;
    var u := m.PushWord(next);
    var p := FlagsByte(m.f.(b := true, u := true));
    var s := u.Push(p);
    PushedWordKeepsFlags(m, next);
    WordPushedIff(m, u, next);
    StatusPushedIff(m.f, p);
    PushedIff(u, s, p);
    TwoBytes(t.pc, s.bus.mem[0xFFFE], s.bus.mem[0xFFFF]);
    if BrkDescribed(m, next, t) {
      var p': Byte, u': Machine, s': Machine :|
        WordPushed(m, u', next) && StatusPushed(m.f, p') && Pushed(u', s', p') && t.m == s'.(f := s'.f.(i := true)) && VectorIs(s'.bus, t.pc);
      WordPushedIff(m, u', next);
      StatusPushedIff(m.f, p');
      PushedIff(u', s', p');
    }
  }

  lemma PushedWordKeepsFlags(m: Machine, w: Address)
    ensures m.PushWord(w).f == m.f
  {
  }

  lemma WantsIff(mn: Mnemonic, f: Flags)
    requires Branches(mn)
    ensures Wants(mn, f) <==> Taken(mn, f)
  {
    hide BitAt, FlagsByte;
    StatusPlaces(f);
  }

  lemma OffsetIff(next: Address, offset: Byte, pc: Address)
    ensures Offset(next, offset, pc) <==> pc == WrapAddress(next + Signed(offset))
  {
    hide BitAt;
    SignPlace(offset);
  }

  lemma ControlIff(insn: Instruction, m: Machine, next: Address, t: Cpu)
    requires insn.Valid() && !Straight(insn.mnemonic) && !Unstable(insn.mnemonic) && !insn.mnemonic.JAM?
    ensures ControlDescribed(insn, m, next, t) <==> t == ExecuteControl(insn, m, next)
  {
    hide AddressIs, EffectiveAddress, JsrDescribed, RtsDescribed, RtiDescribed, BrkDescribed, Wants, Offset, Taken;
    hide Machine.Drop, Machine.Push, Machine.PushWord, Machine.TopWord, WrapAddress, Signed, FlagsByte, ByteFlags;
    match insn.mnemonic
    case JMP => AddressIff(insn.mode, insn.operand.addr, m, t.pc);
    case JSR => JsrIff(m, next, t.m);
    case RTS => RtsIff(m, t);
    case RTI => RtiIff(m, t);
    case BRK => BrkIff(m, next, t);
    case BCC | BCS | BEQ | BNE | BMI | BPL | BVC | BVS =>
      WantsIff(insn.mnemonic, m.f);
      OffsetIff(next, insn.operand.offset, t.pc);
  }

  // ----- every instruction -----

  /** The operand byte: the immediate one, or the one at an address the mode admits. */
  ghost predicate OperandIs(insn: Instruction, m: Machine, v: Byte)
    requires insn.Valid() && ReadsOperand(insn.mnemonic)
  {
    if insn.mode.Immediate? then insn.operand == Imm(v)
    else exists ea: Address :: AddressIs(insn.mode, insn.operand.addr, m, ea) && v == m.bus.mem[ea]
  }

  ghost predicate StraightDescribed(insn: Instruction, m: Machine, t: Machine)
    requires insn.Valid() && Straight(insn.mnemonic)
  {
    var mn := insn.mnemonic;
    if ReadsOperand(mn) then exists v: Byte :: OperandIs(insn, m, v) && ReadDescribed(mn, v, m, t)
    else if AlwaysMemory(mn) then
      exists ea: Address :: AddressIs(insn.mode, insn.operand.addr, m, ea) && MemoryDescribed(mn, ea, m, t)
    else if !IsShift(mn) then ImpliedDescribed(mn, m, t)
    else if insn.mode.Accumulator? then ShiftADescribed(ShiftNamed(mn), m, t)
    else exists ea: Address :: AddressIs(insn.mode, insn.operand.addr, m, ea) && ShiftDescribed(ShiftNamed(mn), ea, m, t)
  }

  function ShiftNamed(mn: Mnemonic): ShiftOp
    requires IsShift(mn)
  {
    match mn
    case ASL => Asl
    case LSR => Lsr
    case ROL => Rol
    case ROR => Ror
  }

  lemma OperandIff(insn: Instruction, m: Machine, v: Byte)
    requires insn.Valid() && ReadsOperand(insn.mnemonic)
    ensures OperandIs(insn, m, v) <==> v == OperandValue(insn, m)
  {
    hide AddressIs, EffectiveAddress;
    if !insn.mode.Immediate? {
      var addr := insn.operand.addr;
      AddressIff(insn.mode, addr, m, EffectiveAddress(insn.mode, addr, m));
      if OperandIs(insn, m, v) {
        var ea: Address :| AddressIs(insn.mode, addr, m, ea) && v == m.bus.mem[ea];
        AddressIff(insn.mode, addr, m, ea);
      }
    }
  }

  lemma OperandStraight(insn: Instruction, m: Machine, t: Machine)
    requires insn.Valid() && ReadsOperand(insn.mnemonic)
    ensures StraightDescribed(insn, m, t) <==> t == ExecuteStraight(insn, m)
  {
    hide OperandIs, OperandValue, ReadDescribed, ExecuteRead;
    var v := OperandValue(insn, m);
    OperandIff(insn, m, v);
    ReadIff(insn.mnemonic, v, m, t);
    if StraightDescribed(insn, m, t) {
      var v': Byte :| OperandIs(insn, m, v') && ReadDescribed(insn.mnemonic, v', m, t);
      OperandIff(insn, m, v');
    }
  }

  lemma MemoryStraight(insn: Instruction, m: Machine, t: Machine)
    requires insn.Valid() && AlwaysMemory(insn.mnemonic)
    ensures StraightDescribed(insn, m, t) <==> t == ExecuteStraight(insn, m)
  {
    hide AddressIs, EffectiveAddress, MemoryDescribed, ExecuteMemory;
    var addr := insn.operand.addr;
    var ea := EffectiveAddress(insn.mode, addr, m);
    AddressIff(insn.mode, addr, m, ea);
    MemoryIff(insn.mnemonic, ea, m, t);
    if StraightDescribed(insn, m, t) {
      var ea': Address :| AddressIs(insn.mode, addr, m, ea') && MemoryDescribed(insn.mnemonic, ea', m, t);
      AddressIff(insn.mode, addr, m, ea');
    }
  }

  lemma ShiftStraight(insn: Instruction, m: Machine, t: Machine)
    requires insn.Valid() && IsShift(insn.mnemonic)
    ensures StraightDescribed(insn, m, t) <==> t == ExecuteStraight(insn, m)
  {
    hide AddressIs, EffectiveAddress, ShiftDescribed, ShiftADescribed, Machine.ShiftA, Machine.ShiftMem;
    var op := ShiftNamed(insn.mnemonic);
    assert op == ShiftOf(insn.mnemonic);
    if insn.mode.Accumulator? {
      ShiftAIff(op, m, t);
    } else {
      var addr := insn.operand.addr;
      var ea := EffectiveAddress(insn.mode, addr, m);
      AddressIff(insn.mode, addr, m, ea);
      ShiftIff(op, ea, m, t);
      if StraightDescribed(insn, m, t) {
        var ea': Address :| AddressIs(insn.mode, addr, m, ea') && ShiftDescribed(op, ea', m, t);
        AddressIff(insn.mode, addr, m, ea');
      }
    }
  }

  lemma StraightIff(insn: Instruction, m: Machine, t: Machine)
    requires insn.Valid() && Straight(insn.mnemonic)
    ensures StraightDescribed(insn, m, t) <==> t == ExecuteStraight(insn, m)
  {
    hide OperandIs, OperandValue, AddressIs, EffectiveAddress, ReadDescribed, MemoryDescribed, ShiftDescribed, ShiftADescribed;
    hide ExecuteRead, ExecuteMemory, Machine.ShiftA, Machine.ShiftMem, ImpliedDescribed, ExecuteImplied;
    if ReadsOperand(insn.mnemonic) {
      OperandStraight(insn, m, t);
    } else if AlwaysMemory(insn.mnemonic) {
      MemoryStraight(insn, m, t);
    } else if IsShift(insn.mnemonic) {
      ShiftStraight(insn, m, t);
    } else {
      ImpliedIff(insn.mnemonic, m, t);
    }
  }

  /** The instruction, followed by `next`, may lead to `t`. */
  ghost predicate LeadsTo(insn: Instruction, m: Machine, next: Address, t: Cpu)
    requires insn.Valid() && !insn.mnemonic.JAM? && !Unstable(insn.mnemonic)
  {
    && Wraps(insn.pc + insn.size, next, 0x1_0000)
    && if Straight(insn.mnemonic) then t.pc == next && StraightDescribed(insn, m, t.m) else ControlDescribed(insn, m, next, t)
  }

  /** What an instruction may lead to: nothing for a jam or an unstable opcode. */
  ghost predicate Described(insn: Instruction, m: Machine, t: Cpu)
    requires insn.Valid()
  {
    && !insn.mnemonic.JAM? && !Unstable(insn.mnemonic)
    && exists next: Address :: LeadsTo(insn, m, next, t)
  }

  lemma LeadsToIff(insn: Instruction, m: Machine, next: Address, t: Cpu)
    requires insn.Valid() && !insn.mnemonic.JAM? && !Unstable(insn.mnemonic)
    ensures LeadsTo(insn, m, next, t) <==> next == WrapAddress(insn.pc + insn.size) && Execute(insn, m) == Stepped(t)
  {
    hide StraightDescribed, ControlDescribed, ExecuteStraight, ExecuteControl, Straight, Wraps, WrapAddress;
    NextIs(insn, next);
    if Straight(insn.mnemonic) {
      StraightIff(insn, m, t.m);
    } else {
      ControlIff(insn, m, next, t);
    }
  }

  /**
   The instruction set, whole: an instruction executes to a state exactly when the description
   admits that state, so it admits at most one.
   */
  lemma ExecutesIff(insn: Instruction, m: Machine, t: Cpu)
    requires insn.Valid()
    ensures Execute(insn, m) == Stepped(t) <==> Described(insn, m, t)
  {
    hide LeadsTo, Straight, WrapAddress, ExecuteStraight, ExecuteControl;
    if !insn.mnemonic.JAM? && !Unstable(insn.mnemonic) {
      LeadsToIff(insn, m, WrapAddress(insn.pc + insn.size), t);
      if Described(insn, m, t) {
        var next: Address :| LeadsTo(insn, m, next, t);
        LeadsToIff(insn, m, next, t);
      }
    }
  }

  lemma NextIs(insn: Instruction, next: Address)
    requires insn.Valid()
    ensures Wraps(insn.pc + insn.size, next, 0x1_0000) <==> next == WrapAddress(insn.pc + insn.size)
  {
    WrapsWord(insn.pc + insn.size, next);
  }

  /** A jam stops the processor and an unstable opcode is refused; everything else steps. */
  lemma StepsUnless(insn: Instruction, m: Machine)
    requires insn.Valid()
    ensures Execute(insn, m).Jammed? <==> insn.mnemonic.JAM?
    ensures Execute(insn, m).Refused? <==> Unstable(insn.mnemonic)
  {
  }

  lemma TopBits(x: Byte, y: Byte)
    requires (BitAt(x, 7) <==> BitAt(y, 7)) && (BitAt(x, 6) <==> BitAt(y, 6))
    ensures x / 64 == y / 64
  {
    hide BitAt;
    SignPlace(x);
    SignPlace(y);
    SecondPlace(x);
    SecondPlace(y);
  }

  /**
   BIT, as the status byte shows it: the operand's two top bits, zero exactly when A shares no
   set bit with it, and nothing else moves.
   */
  lemma BitReports(insn: Instruction, m: Machine, t: Cpu) returns (ea: Address)
    requires insn.Valid() && insn.mnemonic.BIT? && Execute(insn, m) == Stepped(t)
    ensures AddressIs(insn.mode, insn.operand.addr, m, ea)
    ensures FlagsByte(t.m.f) / 64 == m.bus.mem[ea] / 64
    ensures t.m.f.z <==> Disjoint(m.a, m.bus.mem[ea])
    ensures t.m == m.(f := m.f.(n := t.m.f.n, v := t.m.f.v, z := t.m.f.z))
  {
    hide AddressIs, EffectiveAddress, BitAt, FlagsByte, And8;
    ea := EffectiveAddress(insn.mode, insn.operand.addr, m);
    AddressIff(insn.mode, insn.operand.addr, m, ea);
    var v := m.bus.mem[ea];
    BitIff(m, v, t.m);
    StatusPlaces(t.m.f);
    TopBits(FlagsByte(t.m.f), v);
  }
}
