/**
 Arithmetic reference meaning of the 2A03 instruction set: flags are booleans,
 sums are integers. The bit-level interpreter in module Oracle is proved equal
 to it, and the intermediate representation is interpreted over the same state.
 */
module Isa {
  import opened Bytes
  import opened Cpu6502

  datatype Flags = Flags(c: bool, z: bool, i: bool, d: bool, b: bool, u: bool, v: bool, n: bool)

  /** Memory below `romStart` is writable; writes at or above it are dropped. */
  datatype Bus = Bus(mem: Memory, romStart: int)
  {
    function Read(a: Address): Byte {
      mem[a]
    }

    function Write(a: Address, value: Byte): (r: Bus)
      ensures r.romStart == romStart
    {
      if a < romStart then Bus(mem[a := value], romStart) else this
    }

    /** Zero-page pointer read; the high byte wraps within the page. */
    function Pointer(zp: int): Address
      requires 0 <= zp < 256
    {
      Word(mem[zp], mem[(zp + 1) % 256])
    }
  }

  /** Everything an instruction may change except the program counter. */
  datatype Machine = Machine(a: Byte, x: Byte, y: Byte, sp: Byte, f: Flags, bus: Bus)
  {
    function WithNZ(value: Byte): Machine {
      this.(f := f.(n := value >= 128, z := value == 0))
    }

    function LoadA(value: Byte): Machine {
      this.(a := value).WithNZ(value)
    }

    function LoadX(value: Byte): Machine {
      this.(x := value).WithNZ(value)
    }

    function LoadY(value: Byte): Machine {
      this.(y := value).WithNZ(value)
    }

    function Store(addr: Address, value: Byte): Machine {
      this.(bus := bus.Write(addr, value))
    }

    function Push(value: Byte): Machine {
      Store(256 + sp, value).(sp := WrapByte(sp - 1))
    }

    /** The byte a pull would deliver; the pull itself raises SP by one. */
    function Top(): Byte {
      bus.Read(256 + WrapByte(sp + 1))
    }

    function Drop(): Machine {
      this.(sp := WrapByte(sp + 1))
    }

    function PushWord(w: Address): Machine {
      Push(High(w)).Push(Low(w))
    }

    function TopWord(): Address {
      Word(Top(), Drop().Top())
    }

    /** Add with carry: V is overflow of the signed sum. */
    function Adc(m: Byte): Machine {
      var carry := BitOf(f.c);
      var sum := a + m + carry;
      var signedSum := Signed(a) + Signed(m) + carry;
      this.(f := f.(c := sum >= 256, v := !(-128 <= signedSum < 128))).LoadA(WrapByte(a + m + carry))
    }

    /** Subtract with borrow: C is "no borrow", V is overflow of the signed difference. */
    function Sbc(m: Byte): Machine {
      var borrow := 1 - BitOf(f.c);
      var difference := a - m - borrow;
      var signedDifference := Signed(a) - Signed(m) - borrow;
      this.(f := f.(c := difference >= 0, v := !(-128 <= signedDifference < 128))).LoadA(WrapByte(a - m - borrow))
    }

    function Compare(reg: Byte, m: Byte): Machine {
      WithNZ(WrapByte(reg - m)).(f := WithNZ(WrapByte(reg - m)).f.(c := reg >= m))
    }

    function Bit(m: Byte): Machine {
      this.(f := f.(n := m >= 128, v := m / 64 % 2 == 1, z := And8(a, m) == 0))
    }

    function ShiftA(op: ShiftOp): Machine {
      var (r, c) := Shift(op, a, f.c);
      this.(f := f.(c := c)).LoadA(r)
    }

    function ShiftMem(op: ShiftOp, addr: Address): Machine {
      var (r, c) := Shift(op, bus.Read(addr), f.c);
      this.(f := f.(c := c)).Store(addr, r).WithNZ(r)
    }

    function StepMem(addr: Address, delta: int): Machine {
      var r := WrapByte(bus.Read(addr) + delta);
      Store(addr, r).WithNZ(r)
    }
  }

  datatype ShiftOp = Asl | Lsr | Rol | Ror

  /** Shift result and carry-out; rotates bring the old carry in. */
  function Shift(op: ShiftOp, value: Byte, carry: bool): (Byte, bool) {
    match op
    case Asl => (Double(value), value >= 128)
    case Lsr => (value / 2, value % 2 == 1)
    case Rol => (Double(value) + BitOf(carry), value >= 128)
    case Ror => (value / 2 + 128 * BitOf(carry), value % 2 == 1)
  }

  function BitOf(b: bool): int {
    if b then 1 else 0
  }

  /** The status byte as PHP pushes it and PLP reads it back. */
  function FlagsByte(f: Flags): Byte {
    BitOf(f.c) + 2 * (BitOf(f.z) + 2 * (BitOf(f.i) + 2 * (BitOf(f.d)
    + 2 * (BitOf(f.b) + 2 * (BitOf(f.u) + 2 * (BitOf(f.v) + 2 * BitOf(f.n)))))))
  }

  function ByteFlags(p: Byte): Flags {
    var p1 := p / 2; var p2 := p1 / 2; var p3 := p2 / 2; var p4 := p3 / 2; var p5 := p4 / 2; var p6 := p5 / 2;
    Flags(p % 2 == 1, p1 % 2 == 1, p2 % 2 == 1, p3 % 2 == 1, p4 % 2 == 1, p5 % 2 == 1, p6 % 2 == 1, p6 / 2 == 1)
  }

  lemma Halve(low: bool, rest: int)
    ensures (BitOf(low) + 2 * rest) / 2 == rest
    ensures (BitOf(low) + 2 * rest) % 2 == BitOf(low)
  {
  }

  /** Pulling what was pushed restores every flag. */
  lemma UnpackPacked(f: Flags)
    ensures ByteFlags(FlagsByte(f)) == f
  {
    var p6 := BitOf(f.v) + 2 * BitOf(f.n);
    var p5 := BitOf(f.u) + 2 * p6;
    var p4 := BitOf(f.b) + 2 * p5;
    var p3 := BitOf(f.d) + 2 * p4;
    var p2 := BitOf(f.i) + 2 * p3;
    var p1 := BitOf(f.z) + 2 * p2;
    Halve(f.c, p1); Halve(f.z, p2); Halve(f.i, p3); Halve(f.d, p4);
    Halve(f.b, p5); Halve(f.u, p6); Halve(f.v, BitOf(f.n));
  }

  /** The effective address of a memory operand. */
  function EffectiveAddress(mode: AddrMode, addr: Address, m: Machine): Address {
    match mode
    case ZeroPage => addr % 256
    case ZeroPageX => (addr + m.x) % 256
    case ZeroPageY => (addr + m.y) % 256
    case AbsoluteX => WrapAddress(addr + m.x)
    case AbsoluteY => WrapAddress(addr + m.y)
    case IndirectX => m.bus.Pointer((addr + m.x) % 256)
    case IndirectY => WrapAddress(m.bus.Pointer(addr % 256) + m.y)
    case Indirect =>
      // The NMOS page-wrap bug: the high byte comes from the same page.
      var hiAddr: Address := if addr % 256 == 255 then addr - 255 else addr + 1;
      Word(m.bus.Read(addr), m.bus.Read(hiAddr))
    case _ => addr
  }

  /** The value an operand-reading instruction uses. */
  function OperandValue(insn: Instruction, m: Machine): Byte
    requires insn.Valid() && ReadsOperand(insn.mnemonic)
  {
    if insn.mode.Immediate? then insn.operand.value
    else m.bus.Read(EffectiveAddress(insn.mode, insn.operand.addr, m))
  }

  predicate Taken(m: Mnemonic, f: Flags)
    requires Branches(m)
  {
    match m
    case BCC => !f.c
    case BCS => f.c
    case BEQ => f.z
    case BNE => !f.z
    case BMI => f.n
    case BPL => !f.n
    case BVC => !f.v
    case BVS => f.v
  }

  predicate IsRmwPair(m: Mnemonic) {
    m.DCP? || m.ISC? || m.SLO? || m.RLA? || m.SRE? || m.RRA?
  }

  /** The memory half of the six combined instructions. */
  function RmwWrite(mn: Mnemonic, ea: Address, m: Machine): (Byte, bool)
    requires IsRmwPair(mn)
  {
    match mn
    case DCP => (WrapByte(m.bus.Read(ea) - 1), m.f.c)
    case ISC => (WrapByte(m.bus.Read(ea) + 1), m.f.c)
    case SLO => Shift(Asl, m.bus.Read(ea), m.f.c)
    case RLA => Shift(Rol, m.bus.Read(ea), m.f.c)
    case SRE => Shift(Lsr, m.bus.Read(ea), m.f.c)
    case RRA => Shift(Ror, m.bus.Read(ea), m.f.c)
  }

  /** The accumulator half, applied to the byte `w` that was written. */
  function RmwCombine(mn: Mnemonic, w: Byte, m: Machine): Machine
    requires IsRmwPair(mn)
  {
    match mn
    case DCP => m.Compare(m.a, w)
    case ISC => m.Sbc(w)
    case SLO => m.LoadA(Or8(m.a, w))
    case RLA => m.LoadA(And8(m.a, w))
    case SRE => m.LoadA(Xor8(m.a, w))
    case RRA => m.Adc(w)
  }

  function Rmw(mn: Mnemonic, ea: Address, m: Machine): Machine
    requires IsRmwPair(mn)
  {
    var (w, c) := RmwWrite(mn, ea, m);
    RmwCombine(mn, w, m.(f := m.f.(c := c)).Store(ea, w))
  }

  /** Instructions that never redirect control: everything but jumps, calls, returns, branches and refusals. */
  predicate Straight(mn: Mnemonic) {
    && !Branches(mn) && !Unstable(mn)
    && !mn.JMP? && !mn.JSR? && !mn.RTS? && !mn.RTI? && !mn.BRK? && !mn.JAM?
  }

  function ExecuteRead(mn: Mnemonic, v: Byte, m: Machine): Machine
    requires ReadsOperand(mn)
  {
    match mn
    case LDA => m.LoadA(v)
    case LDX => m.LoadX(v)
    case LDY => m.LoadY(v)
    case LAX => m.LoadA(v).(x := v)
    case AND => m.LoadA(And8(m.a, v))
    case ORA => m.LoadA(Or8(m.a, v))
    case EOR => m.LoadA(Xor8(m.a, v))
    case ADC => m.Adc(v)
    case SBC => m.Sbc(v)
    case CMP => m.Compare(m.a, v)
    case CPX => m.Compare(m.x, v)
    case CPY => m.Compare(m.y, v)
  }

  function ExecuteMemory(mn: Mnemonic, ea: Address, m: Machine): Machine
    requires AlwaysMemory(mn)
  {
    match mn
    case STA => m.Store(ea, m.a)
    case STX => m.Store(ea, m.x)
    case STY => m.Store(ea, m.y)
    case SAX => m.Store(ea, And8(m.a, m.x))
    case INC => m.StepMem(ea, 1)
    case DEC => m.StepMem(ea, -1)
    case BIT => m.Bit(m.bus.Read(ea))
    case DCP | ISC | SLO | RLA | SRE | RRA => Rmw(mn, ea, m)
  }

  function ShiftOf(mn: Mnemonic): ShiftOp
    requires IsShift(mn)
  {
    if mn.ASL? then Asl else if mn.LSR? then Lsr else if mn.ROL? then Rol else Ror
  }

  predicate IsImplied(mn: Mnemonic) {
    Straight(mn) && !ReadsOperand(mn) && !AlwaysMemory(mn) && !IsShift(mn)
  }

  function ExecuteImplied(mn: Mnemonic, m: Machine): Machine
    requires IsImplied(mn)
  {
    match mn
    case TAX => m.LoadX(m.a)
    case TAY => m.LoadY(m.a)
    case TXA => m.LoadA(m.x)
    case TYA => m.LoadA(m.y)
    case TSX => m.LoadX(m.sp)
    case TXS => m.(sp := m.x)
    case PHA => m.Push(m.a)
    case PHP => m.Push(FlagsByte(m.f.(b := true, u := true)))
    case PLA => m.Drop().LoadA(m.Top())
    case PLP => m.Drop().(f := ByteFlags(m.Top()).(b := false, u := true))
    case INX => m.LoadX(WrapByte(m.x + 1))
    case INY => m.LoadY(WrapByte(m.y + 1))
    case DEX => m.LoadX(WrapByte(m.x - 1))
    case DEY => m.LoadY(WrapByte(m.y - 1))
    case CLC => m.(f := m.f.(c := false))
    case SEC => m.(f := m.f.(c := true))
    case CLI => m.(f := m.f.(i := false))
    case SEI => m.(f := m.f.(i := true))
    case CLV => m.(f := m.f.(v := false))
    case CLD => m.(f := m.f.(d := false))
    case SED => m.(f := m.f.(d := true))
    case NOP => m
  }

  function ExecuteStraight(insn: Instruction, m: Machine): Machine
    requires insn.Valid() && Straight(insn.mnemonic)
  {
    var mn := insn.mnemonic;
    if ReadsOperand(mn) then ExecuteRead(mn, OperandValue(insn, m), m)
    else if AlwaysMemory(mn) then ExecuteMemory(mn, EffectiveAddress(insn.mode, insn.operand.addr, m), m)
    else if !IsShift(mn) then ExecuteImplied(mn, m)
    else if insn.mode.Accumulator? then m.ShiftA(ShiftOf(mn))
    else m.ShiftMem(ShiftOf(mn), EffectiveAddress(insn.mode, insn.operand.addr, m))
  }

  datatype Cpu = Cpu(pc: Address, m: Machine)

  /** Control transfers; `next` is the address after the instruction. */
  function ExecuteControl(insn: Instruction, m: Machine, next: Address): Cpu
    requires insn.Valid() && !Straight(insn.mnemonic) && !Unstable(insn.mnemonic) && !insn.mnemonic.JAM?
  {
    match insn.mnemonic
    case JMP => Cpu(EffectiveAddress(insn.mode, insn.operand.addr, m), m)
    case JSR => Cpu(insn.operand.addr, m.PushWord(WrapAddress(next - 1)))
    case RTS => Cpu(WrapAddress(m.TopWord() + 1), m.Drop().Drop())
    case RTI =>
      var m1 := m.Drop().(f := ByteFlags(m.Top()).(b := false, u := true));
      Cpu(m1.TopWord(), m1.Drop().Drop())
    case BRK =>
      var m1 := m.PushWord(next);
      var m2 := m1.Push(FlagsByte(m1.f.(b := true, u := true)));
      Cpu(Word(m2.bus.Read(0xFFFE), m2.bus.Read(0xFFFF)), m2.(f := m2.f.(i := true)))
    case BCC | BCS | BEQ | BNE | BMI | BPL | BVC | BVS =>
      if Taken(insn.mnemonic, m.f) then Cpu(WrapAddress(next + Signed(insn.operand.offset)), m) else Cpu(next, m)
  }

  datatype StepResult = Stepped(cpu: Cpu) | Jammed | Refused

  function Execute(insn: Instruction, m: Machine): StepResult
    requires insn.Valid()
  {
    var next := WrapAddress(insn.pc + insn.size);
    if insn.mnemonic.JAM? then Jammed
    else if UnstableOpcode(insn.opcode) then Refused
    else if Straight(insn.mnemonic) then Stepped(Cpu(next, ExecuteStraight(insn, m)))
    else Stepped(ExecuteControl(insn, m, next))
  }

  /** The three bytes the interpreter hands to the decoder. */
  function Fetch(bus: Bus, pc: Address): (raw: seq<Byte>)
    ensures |raw| == 3
  {
    [bus.Read(pc), bus.Read(WrapAddress(pc + 1)), bus.Read(WrapAddress(pc + 2))]
  }

  function Current(table: Table, s: Cpu): Instruction {
    var r := DecodeAt(table, Fetch(s.m.bus, s.pc), s.pc, 0);
    assert r.Some?;
    r.value
  }

  function Step(table: Table, s: Cpu): StepResult
    requires Current(table, s).Valid()
  {
    Execute(Current(table, s), s.m)
  }

  function MemoryWritten(mn: Mnemonic, ea: Address, m: Machine): Byte
    requires AlwaysMemory(mn)
  {
    match mn
    case STA => m.a
    case STX => m.x
    case STY => m.y
    case SAX => And8(m.a, m.x)
    case INC => WrapByte(m.bus.Read(ea) + 1)
    case DEC => WrapByte(m.bus.Read(ea) - 1)
    case BIT => 0
    case DCP | ISC | SLO | RLA | SRE | RRA => RmwWrite(mn, ea, m).0
  }

  lemma MemoryWrite(mn: Mnemonic, ea: Address, m: Machine)
    requires AlwaysMemory(mn)
    ensures ExecuteMemory(mn, ea, m).bus == if mn.BIT? then m.bus else m.bus.Write(ea, MemoryWritten(mn, ea, m))
  {
  }

  lemma ReadWritesNothing(mn: Mnemonic, v: Byte, m: Machine)
    requires ReadsOperand(mn)
    ensures ExecuteRead(mn, v, m).bus == m.bus
  {
  }

  /** What an implied instruction writes: a push, or nothing. */
  lemma ImpliedWrite(mn: Mnemonic, m: Machine)
    requires IsImplied(mn)
    ensures ExecuteImplied(mn, m).bus
            == if mn.PHA? then m.bus.Write(256 + m.sp, m.a)
               else if mn.PHP? then m.bus.Write(256 + m.sp, FlagsByte(m.f.(b := true, u := true)))
               else m.bus
  {
  }

  lemma ShiftWrite(op: ShiftOp, ea: Address, m: Machine)
    ensures m.ShiftA(op).bus == m.bus
    ensures m.ShiftMem(op, ea).bus == m.bus.Write(ea, Shift(op, m.bus.Read(ea), m.f.c).0)
  {
  }

  /** A straight instruction leaves the bus alone or writes one byte. */
  lemma OnlyWrite(insn: Instruction, m: Machine) returns (a: Address, v: Byte)
    requires insn.Valid() && Straight(insn.mnemonic)
    ensures ExecuteStraight(insn, m).bus == m.bus || ExecuteStraight(insn, m).bus == m.bus.Write(a, v)
  {
    hide ExecuteRead, ExecuteMemory, ExecuteImplied, Shift, EffectiveAddress, OperandValue, FlagsByte, MemoryWritten;
    var mn := insn.mnemonic;
    a, v := 0, 0;
    if ReadsOperand(mn) {
      ReadWritesNothing(mn, OperandValue(insn, m), m);
    } else if AlwaysMemory(mn) {
      a := EffectiveAddress(insn.mode, insn.operand.addr, m);
      v := MemoryWritten(mn, a, m);
      MemoryWrite(mn, a, m);
    } else if IsShift(mn) {
      a := if insn.mode.Accumulator? then 0 else EffectiveAddress(insn.mode, insn.operand.addr, m);
      v := Shift(ShiftOf(mn), m.bus.Read(a), m.f.c).0;
      ShiftWrite(ShiftOf(mn), a, m);
    } else {
      a := 256 + m.sp;
      v := if mn.PHP? then FlagsByte(m.f.(b := true, u := true)) else m.a;
      ImpliedWrite(mn, m);
    }
  }
}
