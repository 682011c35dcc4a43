/**
 The differential-test interpreter: registers, a packed status byte and a bus
 updated in place with masks and shifts. Every method is proved equal to the
 arithmetic reference of module Isa.
 */
module Oracle {
  import opened Bytes
  import opened Cpu6502
  import opened Isa
  import opened BitMasks

  const FLAG_C: bv8 := 0x01
  const FLAG_Z: bv8 := 0x02
  const FLAG_I: bv8 := 0x04
  const FLAG_D: bv8 := 0x08
  const FLAG_B: bv8 := 0x10
  const FLAG_U: bv8 := 0x20
  const FLAG_V: bv8 := 0x40
  const FLAG_N: bv8 := 0x80

  function StatusFlags(p: bv8): Flags {
    Flags(p & FLAG_C != 0, p & FLAG_Z != 0, p & FLAG_I != 0, p & FLAG_D != 0,
          p & FLAG_B != 0, p & FLAG_U != 0, p & FLAG_V != 0, p & FLAG_N != 0)
  }

  datatype FlagName = C | Z | I | D | V | N

  function Mask(name: FlagName): bv8 {
    match name
    case C => FLAG_C
    case Z => FLAG_Z
    case I => FLAG_I
    case D => FLAG_D
    case V => FLAG_V
    case N => FLAG_N
  }

  function WithFlag(f: Flags, name: FlagName, on: bool): Flags {
    match name
    case C => f.(c := on)
    case Z => f.(z := on)
    case I => f.(i := on)
    case D => f.(d := on)
    case V => f.(v := on)
    case N => f.(n := on)
  }

  function FlagOf(f: Flags, name: FlagName): bool {
    match name
    case C => f.c
    case Z => f.z
    case I => f.i
    case D => f.d
    case V => f.v
    case N => f.n
  }

  /** Masking one bit of the status byte sets or clears exactly that flag. */
  lemma FlagSet(p: bv8, name: FlagName)
    ensures StatusFlags(p | Mask(name)) == WithFlag(StatusFlags(p), name, true)
  {
  }

  lemma FlagCleared(p: bv8, name: FlagName)
    ensures StatusFlags(p & !Mask(name)) == WithFlag(StatusFlags(p), name, false)
  {
  }

  /** Pulls clear B and set U; pushes by software set both. */
  lemma BreakBits(p: bv8)
    ensures StatusFlags((p & !FLAG_B) | FLAG_U) == StatusFlags(p).(b := false, u := true)
    ensures StatusFlags((p | FLAG_B) | FLAG_U) == StatusFlags(p).(b := true, u := true)
  {
  }

  function BitValue(b: bv8, mask: bv8): int {
    if b & mask != 0 then 1 else 0
  }

  lemma AslBits(v: Byte, bits: bv8)
    requires bits as int == v
    ensures ((bits << 1) as int, bits & 0x80 != 0) == Shift(Asl, v, false) == Shift(Asl, v, true)
  {
    SignBit(v, bits);
    ShiftLeftIsDouble(v, bits);
  }

  lemma LsrBits(v: Byte, bits: bv8)
    requires bits as int == v
    ensures ((bits >> 1) as int, bits & 0x01 != 0) == Shift(Lsr, v, false) == Shift(Lsr, v, true)
  {
    LowBit(v, bits);
    RotateRight(v, bits, 0);
    assert (bits >> 1) | (0 << 7) == bits >> 1;
  }

  lemma RolBits(v: Byte, bits: bv8, c: bv8, carry: int)
    requires bits as int == v && 0 <= carry <= 1 && c == if carry == 1 then 1 else 0
    ensures (((bits << 1) | c) as int, bits & 0x80 != 0) == Shift(Rol, v, carry == 1)
  {
    SignBit(v, bits);
    RotateLeft(v, bits, c);
  }

  lemma RorBits(v: Byte, bits: bv8, c: bv8, carry: int)
    requires bits as int == v && 0 <= carry <= 1 && c == if carry == 1 then 1 else 0
    ensures (((bits >> 1) | (c << 7)) as int, bits & 0x01 != 0) == Shift(Ror, v, carry == 1)
  {
    LowBit(v, bits);
    RotateRight(v, bits, c);
  }

  lemma ByteDifference(x: Byte, y: Byte)
    ensures WrapByte(x - y) == (x - y) % 256 && (x - y == 0 <==> WrapByte(x - y) == 0)
  {
  }

  /** The packed status byte is the weighted sum of its flags. */
  lemma LowNibble(p: bv8)
    ensures (p & 0x0F) as int == BitValue(p, 1) + 2 * BitValue(p, 2) + 4 * BitValue(p, 4) + 8 * BitValue(p, 8)
  {
  }

  lemma HighNibble(p: bv8)
    ensures (p & 0xF0) as int == 16 * BitValue(p, 16) + 32 * BitValue(p, 32) + 64 * BitValue(p, 64) + 128 * BitValue(p, 128)
  {
  }

  lemma Nibbles(p: bv8)
    ensures p as int == (p & 0x0F) as int + (p & 0xF0) as int
  {
  }

  lemma PackStatus(p: bv8)
    ensures p as int == FlagsByte(StatusFlags(p))
  {
    Nibbles(p);
    LowNibble(p);
    HighNibble(p);
  }

  lemma UnpackStatus(v: Byte, p: bv8)
    requires p as int == v
    ensures StatusFlags(p) == ByteFlags(v)
  {
    PackStatus(p);
    UnpackPacked(StatusFlags(p));
  }

  /** The adder's mask `!(a ^ m) & (a ^ t) & 0x80` is signed overflow of the sum. */
  lemma OverflowMask(a: Byte, m: Byte, carry: int, a8: bv8, m8: bv8, low: bv8)
    requires 0 <= carry <= 1 && a8 as int == a && m8 as int == m && low as int == WrapByte(a + m + carry)
    ensures OverflowBit(a8, m8, low, a + m + carry > 255) <==> !(-128 <= Signed(a) + Signed(m) + carry < 128)
  {
    hide OverflowBit;
    SignBit(a, a8);
    SignBit(m, m8);
    SignBit(WrapByte(a + m + carry), low);
    SameSign(a8, m8);
    SameSign(a8, low);
    OverflowBits(a8, m8, low, a + m + carry > 255);
    SignComparison(a, m, carry);
  }

  lemma SameSign(a: bv8, b: bv8)
    ensures a & 0x80 == b & 0x80 <==> (a & 0x80 != 0 <==> b & 0x80 != 0)
  {
  }

  lemma SignComparison(a: Byte, m: Byte, carry: int)
    requires 0 <= carry <= 1
    ensures (a >= 128) == (m >= 128) && (a >= 128) != ((a + m + carry) % 256 >= 128)
            <==> !(-128 <= Signed(a) + Signed(m) + carry < 128)
  {
  }

  /** The adder's flags in the order the interpreter sets them. */
  lemma AdcInSteps(m: Machine, v: Byte)
    ensures var t := m.a + v + BitOf(m.f.c);
            var r := WrapByte(t);
            var overflow := !(-128 <= Signed(m.a) + Signed(v) + BitOf(m.f.c) < 128);
            m.Adc(v) == m.(a := r, f := m.f.(c := t > 255).(v := overflow).(n := r >= 128, z := r == 0))
  {
  }

  /** Adding the complement is the reference subtraction, flags included. */
  lemma ComplementAddIsSubtract(m: Machine, v: Byte)
    ensures m.Adc(255 - v) == m.Sbc(v)
  {
    var carry := BitOf(m.f.c);
    assert WrapByte(m.a + (255 - v) + carry) == WrapByte(m.a - v - (1 - carry));
  }

  /** The bus the interpreter drives: flat memory with an optional read-only top. */
  class FlatBus {
    var state: Bus

    constructor (mem: Memory, romStart: int)
      ensures state == Bus(mem, romStart)
    {
      state := Bus(mem, romStart);
    }

    method Read(addr: Address) returns (value: Byte)
      ensures value == state.Read(addr)
    {
      value := state.mem[addr];
    }

    method Write(addr: Address, value: Byte)
      modifies this
      ensures state == old(state).Write(addr, value)
    {
      if addr < state.romStart {
        state := Bus(state.mem[addr := value], state.romStart);
      }
    }
  }

  class Cpu {
    var a: Byte
    var x: Byte
    var y: Byte
    var sp: Byte
    var pc: Address
    var p: bv8

    constructor ()
      ensures (a, x, y, sp, pc) == (0, 0, 0, 0xFD, 0)
      ensures StatusFlags(p) == Flags(false, false, true, false, false, true, false, false)
    {
      a, x, y, sp, pc := 0, 0, 0, 0xFD, 0;
      p := FLAG_I | FLAG_U;
    }

    ghost function Machine(bus: FlatBus): Isa.Machine
      reads this, bus
    {
      Isa.Machine(a, x, y, sp, StatusFlags(p), bus.state)
    }

    method Flag(name: FlagName) returns (on: bool)
      ensures on == FlagOf(StatusFlags(p), name)
    {
      on := p & Mask(name) != 0;
    }

    method SetFlag(name: FlagName, on: bool)
      modifies this`p
      ensures StatusFlags(p) == WithFlag(StatusFlags(old(p)), name, on)
    {
      if on {
        FlagSet(p, name);
        p := p | Mask(name);
      } else {
        FlagCleared(p, name);
        p := p & !Mask(name);
      }
    }

    method SetNZ(v: Byte)
      modifies this`p
      ensures StatusFlags(p) == StatusFlags(old(p)).(n := v >= 128, z := v == 0)
    {
      var bits := ToBits(v);
      SignBit(v, bits);
      SetFlag(N, bits & 0x80 != 0);
      SetFlag(Z, v == 0);
    }

    method Push(bus: FlatBus, val: Byte)
      modifies this`sp, bus
      ensures Machine(bus) == old(Machine(bus)).Push(val)
    {
      bus.Write(256 + sp, val);
      sp := WrapByte(sp - 1);
    }

    method Pop(bus: FlatBus) returns (val: Byte)
      modifies this`sp
      ensures val == old(Machine(bus)).Top() && Machine(bus) == old(Machine(bus)).Drop()
    {
      sp := WrapByte(sp + 1);
      val := bus.Read(256 + sp);
    }

    method PushWord(bus: FlatBus, val: Address)
      modifies this`sp, bus
      ensures Machine(bus) == old(Machine(bus)).PushWord(val)
    {
      Push(bus, High(val));
      Push(bus, Low(val));
    }

    method PopWord(bus: FlatBus) returns (val: Address)
      modifies this`sp
      ensures val == old(Machine(bus)).TopWord() && Machine(bus) == old(Machine(bus)).Drop().Drop()
    {
      var lo := Pop(bus);
      var hi := Pop(bus);
      val := Word(lo, hi);
    }

    method ResolveEa(bus: FlatBus, mode: AddrMode, operand: Operand) returns (ea: Option<Address>)
      requires OperandMatches(mode, operand)
      ensures ea == if operand.Addr? then Some(EffectiveAddress(mode, operand.addr, Machine(bus))) else None
    {
      match mode
      case Implied | Accumulator | Immediate | Relative => ea := None;
      case ZeroPage => ea := Some(operand.addr % 256);
      case ZeroPageX => ea := Some((operand.addr + x) % 256);
      case ZeroPageY => ea := Some((operand.addr + y) % 256);
      case Absolute => ea := Some(operand.addr);
      case AbsoluteX => ea := Some(WrapAddress(operand.addr + x));
      case AbsoluteY => ea := Some(WrapAddress(operand.addr + y));
      case Indirect =>
        var lo := bus.Read(operand.addr);
        var hi := bus.Read(if operand.addr % 256 == 255 then operand.addr - 255 else operand.addr + 1);
        ea := Some(Word(lo, hi));
      case IndirectX =>
        var ptr := ReadPointer(bus, (operand.addr + x) % 256);
        ea := Some(ptr);
      case IndirectY =>
        var base := ReadPointer(bus, operand.addr % 256);
        ea := Some(WrapAddress(base + y));
    }

    method ReadPointer(bus: FlatBus, ptr: int) returns (w: Address)
      requires 0 <= ptr < 256
      ensures w == bus.state.Pointer(ptr)
    {
      var lo := bus.Read(ptr);
      var hi := bus.Read((ptr + 1) % 256);
      w := Word(lo, hi);
    }

    method ReadOperand(bus: FlatBus, insn: Instruction, ea: Option<Address>) returns (v: Byte)
      requires insn.Valid() && ReadsOperand(insn.mnemonic)
      requires insn.operand.Addr? ==> ea == Some(EffectiveAddress(insn.mode, insn.operand.addr, Machine(bus)))
      ensures v == OperandValue(insn, Machine(bus))
    {
      if insn.mode.Immediate? {
        v := insn.operand.value;
      } else {
        v := bus.Read(ea.value);
      }
    }

    /** `!(a ^ m) & (a ^ t) & 0x80` at sixteen bits, where `t` is the sum. */
    method Overflow(m: Byte, carry: int, t: int) returns (v: bool)
      requires 0 <= carry <= 1 && t == a + m + carry
      ensures v <==> !(-128 <= Signed(a) + Signed(m) + carry < 128)
    {
      hide OverflowBit;
      var a8 := ToBits(a);
      var m8 := ToBits(m);
      var low := ToBits(WrapByte(t));
      OverflowMask(a, m, carry, a8, m8, low);
      v := OverflowBit(a8, m8, low, t > 255);
    }

    method CarryIn() returns (c: int)
      ensures c == BitOf(StatusFlags(p).c)
    {
      c := if p & FLAG_C != 0 then 1 else 0;
    }

    method DoAdc(bus: FlatBus, m: Byte)
      modifies this`a, this`p
      ensures Machine(bus) == old(Machine(bus)).Adc(m)
    {
      hide StatusFlags;
      AdcInSteps(Machine(bus), m);
      var c := CarryIn();
      var t := a + m + c;
      var result := WrapByte(t);
      var overflow := Overflow(m, c, t);
      SetFlag(C, t > 0xFF);
      SetFlag(V, overflow);
      LoadA(bus, result);
    }

    method DoSbc(bus: FlatBus, m: Byte)
      modifies this`a, this`p
      ensures Machine(bus) == old(Machine(bus)).Sbc(m)
    {
      ComplementAddIsSubtract(Machine(bus), m);
      var complement := Complement(m);
      DoAdc(bus, complement);
    }

    /** `m ^ 0xFF`. */
    method Complement(m: Byte) returns (r: Byte)
      ensures r == 255 - m
    {
      var bits := ToBits(m);
      ComplementByte(m, bits);
      r := (bits ^ 0xFF) as int;
    }

    method DoCmp(bus: FlatBus, reg: Byte, m: Byte)
      modifies this`p
      ensures Machine(bus) == old(Machine(bus)).Compare(reg, m)
    {
      hide StatusFlags, WrapByte;
      var t := reg - m;
      var low: Byte := t % 256;
      var bits := ToBits(low);
      SignBit(low, bits);
      ByteDifference(reg, m);
      SetFlag(C, reg >= m);
      SetFlag(N, bits & 0x80 != 0);
      SetFlag(Z, t == 0);
    }

    /** Read for modification: the original byte is written back before the result. */
    method ReadRmwOperand(bus: FlatBus, addr: Address) returns (v: Byte)
      modifies bus
      ensures v == old(bus.state).Read(addr) && bus.state == old(bus.state)
    {
      v := bus.Read(addr);
      bus.Write(addr, v);
      assert bus.state.mem == old(bus.state.mem);
    }

    /** The shifts and rotates: the bit that leaves becomes C, the old C enters a rotate. */
    method ShiftByte(op: ShiftOp, v: Byte) returns (r: Byte)
      modifies this`p
      ensures r == Shift(op, v, StatusFlags(old(p)).c).0
      ensures StatusFlags(p) == StatusFlags(old(p)).(c := Shift(op, v, StatusFlags(old(p)).c).1)
    {
      var oldC := CarryIn();
      var out: bool;
      r, out := ShiftBits(op, v, oldC);
      SetFlag(C, out);
    }

    method ShiftBits(op: ShiftOp, v: Byte, carry: int) returns (r: Byte, out: bool)
      requires 0 <= carry <= 1
      ensures (r, out) == Shift(op, v, carry == 1)
    {
      hide Shift;
      var bits := ToBits(v);
      var c: bv8 := if carry == 1 then 1 else 0;
      match op {
        case Asl =>
          AslBits(v, bits);
          r, out := (bits << 1) as int, bits & 0x80 != 0;
        case Lsr =>
          LsrBits(v, bits);
          r, out := (bits >> 1) as int, bits & 0x01 != 0;
        case Rol =>
          RolBits(v, bits, c, carry);
          r, out := ((bits << 1) | c) as int, bits & 0x80 != 0;
        case Ror =>
          RorBits(v, bits, c, carry);
          r, out := ((bits >> 1) | (c << 7)) as int, bits & 0x01 != 0;
      }
    }

    method LoadA(bus: FlatBus, v: Byte)
      modifies this`a, this`p
      ensures Machine(bus) == old(Machine(bus)).LoadA(v)
    {
      a := v;
      SetNZ(a);
    }

    method LoadX(bus: FlatBus, v: Byte)
      modifies this`x, this`p
      ensures Machine(bus) == old(Machine(bus)).LoadX(v)
    {
      x := v;
      SetNZ(x);
    }

    method LoadY(bus: FlatBus, v: Byte)
      modifies this`y, this`p
      ensures Machine(bus) == old(Machine(bus)).LoadY(v)
    {
      y := v;
      SetNZ(y);
    }

    /** Loads, logic, arithmetic and comparisons. */
    method RunRead(bus: FlatBus, mn: Mnemonic, v: Byte)
      requires ReadsOperand(mn)
      modifies this
      ensures Machine(bus) == ExecuteRead(mn, v, old(Machine(bus))) && pc == old(pc)
    {
      match mn
      case LDA => LoadA(bus, v);
      case LDX => LoadX(bus, v);
      case LDY => LoadY(bus, v);
      case LAX => a := v; x := v; SetNZ(v);
      case AND => LoadA(bus, And8(a, v));
      case ORA => LoadA(bus, Or8(a, v));
      case EOR => LoadA(bus, Xor8(a, v));
      case ADC => DoAdc(bus, v);
      case SBC => DoSbc(bus, v);
      case CMP => DoCmp(bus, a, v);
      case CPX => DoCmp(bus, x, v);
      case CPY => DoCmp(bus, y, v);
    }

    method ShiftMemory(bus: FlatBus, op: ShiftOp, ea: Address)
      modifies this`p, bus
      ensures Machine(bus) == old(Machine(bus)).ShiftMem(op, ea)
    {
      var v := ReadRmwOperand(bus, ea);
      var r := ShiftByte(op, v);
      bus.Write(ea, r);
      SetNZ(r);
    }

    method StepMemory(bus: FlatBus, ea: Address, delta: int)
      modifies this`p, bus
      ensures Machine(bus) == old(Machine(bus)).StepMem(ea, delta)
    {
      var old_ := ReadRmwOperand(bus, ea);
      var v := WrapByte(old_ + delta);
      bus.Write(ea, v);
      SetNZ(v);
    }

    /** The memory half of DCP, ISC, SLO, RLA, SRE and RRA. */
    method ModifyMemory(bus: FlatBus, mn: Mnemonic, ea: Address) returns (w: Byte)
      requires IsRmwPair(mn)
      modifies this`p, bus
      ensures var (byte, carry) := RmwWrite(mn, ea, old(Machine(bus)));
              w == byte && Machine(bus) == old(Machine(bus)).(f := StatusFlags(old(p)).(c := carry)).Store(ea, byte)
    {
      var v: int := ReadRmwOperand(bus, ea);
      match mn {
        case DCP => w := WrapByte(v - 1);
        case ISC => w := WrapByte(v + 1);
        case SLO => w := ShiftByte(Asl, v);
        case RLA => w := ShiftByte(Rol, v);
        case SRE => w := ShiftByte(Lsr, v);
        case RRA => w := ShiftByte(Ror, v);
      }
      bus.Write(ea, w);
    }

    /** Read-modify-write, then the accumulator operation on the byte written. */
    method RunRmw(bus: FlatBus, mn: Mnemonic, ea: Address)
      requires IsRmwPair(mn)
      modifies this, bus
      ensures Machine(bus) == Rmw(mn, ea, old(Machine(bus))) && pc == old(pc)
    {
      var w := ModifyMemory(bus, mn, ea);
      match mn
      case DCP => DoCmp(bus, a, w);
      case ISC => DoSbc(bus, w);
      case SLO => LoadA(bus, Or8(a, w));
      case RLA => LoadA(bus, And8(a, w));
      case SRE => LoadA(bus, Xor8(a, w));
      case RRA => DoAdc(bus, w);
    }

    method TestBits(bus: FlatBus, ea: Address)
      modifies this`p
      ensures Machine(bus) == old(Machine(bus)).Bit(bus.state.Read(ea))
    {
      var m := bus.Read(ea);
      var bits := ToBits(m);
      SignBit(m, bits);
      Bit6(m, bits);
      SetFlag(N, bits & 0x80 != 0);
      SetFlag(V, bits & 0x40 != 0);
      SetFlag(Z, And8(a, m) == 0);
    }

    /** `p | FLAG_B | FLAG_U`, as software pushes the status byte. */
    method StatusToPush() returns (v: Byte)
      ensures v == FlagsByte(StatusFlags(p).(b := true, u := true))
    {
      var pushed := p | FLAG_B | FLAG_U;
      BreakBits(p);
      PackStatus(pushed);
      v := pushed as int;
    }

    /** `(v & !FLAG_B) | FLAG_U`, as a pulled status byte is taken. */
    method TakeStatus(v: Byte)
      modifies this`p
      ensures StatusFlags(p) == ByteFlags(v).(b := false, u := true)
    {
      var bits := ToBits(v);
      UnpackStatus(v, bits);
      BreakBits(bits);
      p := (bits & !FLAG_B) | FLAG_U;
    }

    method RunMemory(bus: FlatBus, mn: Mnemonic, ea: Address)
      requires AlwaysMemory(mn)
      modifies this, bus
      ensures Machine(bus) == ExecuteMemory(mn, ea, old(Machine(bus))) && pc == old(pc)
    {
      match mn
      case STA => bus.Write(ea, a);
      case STX => bus.Write(ea, x);
      case STY => bus.Write(ea, y);
      case SAX => bus.Write(ea, And8(a, x));
      case INC => StepMemory(bus, ea, 1);
      case DEC => StepMemory(bus, ea, -1);
      case BIT =>
        TestBits(bus, ea);
      case DCP | ISC | SLO | RLA | SRE | RRA => RunRmw(bus, mn, ea);
    }

    method RunImplied(bus: FlatBus, mn: Mnemonic)
      requires IsImplied(mn)
      modifies this, bus
      ensures Machine(bus) == ExecuteImplied(mn, old(Machine(bus))) && pc == old(pc)
    {
      hide StatusFlags, FlagsByte, ByteFlags, WrapByte;
      match mn
      case TAX => LoadX(bus, a);
      case TAY => LoadY(bus, a);
      case TXA => LoadA(bus, x);
      case TYA => LoadA(bus, y);
      case TSX => LoadX(bus, sp);
      case TXS => sp := x;
      case PHA => Push(bus, a);
      case PHP => var status := StatusToPush(); Push(bus, status);
      case PLA => var v := Pop(bus); LoadA(bus, v);
      case PLP => var v := Pop(bus); TakeStatus(v);
      case INX => LoadX(bus, WrapByte(x + 1));
      case INY => LoadY(bus, WrapByte(y + 1));
      case DEX => LoadX(bus, WrapByte(x - 1));
      case DEY => LoadY(bus, WrapByte(y - 1));
      case CLC => SetFlag(C, false);
      case SEC => SetFlag(C, true);
      case CLI => SetFlag(I, false);
      case SEI => SetFlag(I, true);
      case CLV => SetFlag(V, false);
      case CLD => SetFlag(D, false);
      case SED => SetFlag(D, true);
      case NOP =>
    }

    method RunStraight(bus: FlatBus, insn: Instruction, ea: Option<Address>)
      requires insn.Valid() && Straight(insn.mnemonic)
      requires insn.operand.Addr? ==> ea == Some(EffectiveAddress(insn.mode, insn.operand.addr, Machine(bus)))
      modifies this, bus
      ensures Machine(bus) == ExecuteStraight(insn, old(Machine(bus))) && pc == old(pc)
    {
      var mn := insn.mnemonic;
      if ReadsOperand(mn) {
        var v := ReadOperand(bus, insn, ea);
        RunRead(bus, mn, v);
      } else if AlwaysMemory(mn) {
        RunMemory(bus, mn, ea.value);
      } else if !IsShift(mn) {
        RunImplied(bus, mn);
      } else if insn.mode.Accumulator? {
        var r := ShiftByte(ShiftOf(mn), a);
        LoadA(bus, r);
      } else {
        ShiftMemory(bus, ShiftOf(mn), ea.value);
      }
    }

    method Branch(insn: Instruction, taken: bool)
      requires insn.operand.Rel?
      modifies this`pc
      ensures pc == if taken then WrapAddress(old(pc) + Signed(insn.operand.offset)) else old(pc)
    {
      if taken {
        pc := WrapAddress(pc + Signed(insn.operand.offset));
      }
    }

    method ReturnFromInterrupt(bus: FlatBus)
      modifies this
      ensures var m := old(Machine(bus)).Drop().(f := ByteFlags(old(Machine(bus)).Top()).(b := false, u := true));
              Isa.Cpu(pc, Machine(bus)) == Isa.Cpu(m.TopWord(), m.Drop().Drop())
    {
      var v := Pop(bus);
      TakeStatus(v);
      pc := PopWord(bus);
    }

    method Break(bus: FlatBus)
      modifies this, bus
      ensures var m := old(Machine(bus)).PushWord(old(pc)).Push(FlagsByte(StatusFlags(old(p)).(b := true, u := true)));
              Isa.Cpu(pc, Machine(bus)) == Isa.Cpu(Word(m.bus.Read(0xFFFE), m.bus.Read(0xFFFF)), m.(f := m.f.(i := true)))
    {
      PushWord(bus, pc);
      var status := StatusToPush();
      Push(bus, status);
      SetFlag(I, true);
      var lo := bus.Read(0xFFFE);
      var hi := bus.Read(0xFFFF);
      pc := Word(lo, hi);
    }

    method RunBranch(bus: FlatBus, insn: Instruction)
      requires insn.Valid() && Branches(insn.mnemonic)
      modifies this`pc
      ensures pc == if Taken(insn.mnemonic, StatusFlags(p)) then WrapAddress(old(pc) + Signed(insn.operand.offset)) else old(pc)
    {
      var taken := TakesBranch(insn.mnemonic);
      Branch(insn, taken);
    }

    method TakesBranch(mn: Mnemonic) returns (taken: bool)
      requires Branches(mn)
      ensures taken == Taken(mn, StatusFlags(p))
    {
      match mn
      case BCC => taken := Flag(C); taken := !taken;
      case BCS => taken := Flag(C);
      case BEQ => taken := Flag(Z);
      case BNE => taken := Flag(Z); taken := !taken;
      case BMI => taken := Flag(N);
      case BPL => taken := Flag(N); taken := !taken;
      case BVC => taken := Flag(V); taken := !taken;
      case BVS => taken := Flag(V);
    }

    /** Jumps, calls, returns, interrupts and branches; `pc` is already past the instruction. */
    method RunControl(bus: FlatBus, insn: Instruction, ea: Option<Address>)
      requires insn.Valid() && !Straight(insn.mnemonic) && !Unstable(insn.mnemonic) && !insn.mnemonic.JAM?
      requires insn.operand.Addr? ==> ea == Some(EffectiveAddress(insn.mode, insn.operand.addr, Machine(bus)))
      modifies this, bus
      ensures Isa.Cpu(pc, Machine(bus)) == ExecuteControl(insn, old(Machine(bus)), old(pc))
    {
      if Branches(insn.mnemonic) {
        RunBranch(bus, insn);
      } else {
        RunJump(bus, insn, ea);
      }
    }

    method RunJump(bus: FlatBus, insn: Instruction, ea: Option<Address>)
      requires insn.Valid() && !Straight(insn.mnemonic) && !Unstable(insn.mnemonic) && !insn.mnemonic.JAM? && !Branches(insn.mnemonic)
      requires insn.operand.Addr? ==> ea == Some(EffectiveAddress(insn.mode, insn.operand.addr, Machine(bus)))
      modifies this, bus
      ensures Isa.Cpu(pc, Machine(bus)) == ExecuteControl(insn, old(Machine(bus)), old(pc))
    {
      match insn.mnemonic
      case JMP => pc := ea.value;
      case JSR =>
        PushWord(bus, WrapAddress(pc - 1));
        pc := ea.value;
      case RTS =>
        var ret: int := PopWord(bus);
        pc := WrapAddress(ret + 1);
      case RTI => ReturnFromInterrupt(bus);
      case BRK => Break(bus);
    }

    method FetchAndDecode(bus: FlatBus, table: Table) returns (insn: Instruction)
      ensures insn == Current(table, Isa.Cpu(pc, Machine(bus)))
    {
      var b0 := bus.Read(pc);
      var b1 := bus.Read(WrapAddress(pc + 1));
      var b2 := bus.Read(WrapAddress(pc + 2));
      insn := DecodeAt(table, [b0, b1, b2], pc, 0).value;
    }

    /** One instruction; refusals leave registers and memory alone. */
    method Step(bus: FlatBus, table: Table) returns (r: StepResult)
      requires Current(table, Isa.Cpu(pc, Machine(bus))).Valid()
      modifies this, bus
      ensures r == Isa.Step(table, old(Isa.Cpu(pc, Machine(bus))))
      ensures r.Stepped? ==> Isa.Cpu(pc, Machine(bus)) == r.cpu
      ensures !r.Stepped? ==> Isa.Cpu(pc, Machine(bus)) == old(Isa.Cpu(pc, Machine(bus)))
    {
      var insn := FetchAndDecode(bus, table);
      if insn.mnemonic.JAM? {
        return Jammed;
      }
      if UnstableOpcode(insn.opcode) {
        return Refused;
      }
      pc := WrapAddress(pc + insn.size);
      var ea := ResolveEa(bus, insn.mode, insn.operand);
      if Straight(insn.mnemonic) {
        RunStraight(bus, insn, ea);
      } else {
        RunControl(bus, insn, ea);
      }
      r := Stepped(Isa.Cpu(pc, Isa.Machine(a, x, y, sp, StatusFlags(p), bus.state)));
    }
  }
}
