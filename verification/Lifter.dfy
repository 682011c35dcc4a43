/**
 Lifting one decoded instruction, in the mode that keeps every memory operand a
 plain access (`dynamic_cpu_bus`), and the proof that it keeps the meaning.
 */
module Lifter {
  import opened Bytes
  import opened Cpu6502
  import opened Isa
  import opened Ir

  datatype ReturnEscapeSite = ReturnEscapeSite(
    caller: Address, target: Address, returnAddr: Address, alreadyConsumed: bool, consumeAt: Option<Address>)

  datatype ReturnConsumeSite = ReturnConsumeSite(at: Address, secondPla: Option<Address>, returnAddrs: seq<Address>)

  datatype MaterializedCallSite = MaterializedCallSite(caller: Address, target: Address)

  /** A call that consumes its return address as a pointer to the table of two-byte targets behind it. */
  datatype JumpEngineSite = JumpEngineSite(
    caller: Address, targets: seq<string>, returnTarget: Option<string>, tailIndices: seq<nat>,
    stackReturnBytes: Byte, targetEntryA: seq<Byte>)
  {
    function TableEnd(): nat {
      caller + 3 + 2 * |targets|
    }

    predicate ContainsTableByte(pc: Address) {
      caller + 3 <= pc < TableEnd()
    }

    /** The dispatch may go to this label. */
    predicate Names(name: string) {
      name in targets || returnTarget == Some(name)
    }
  }

  /** An inclusive range of profile-declared data bytes. */
  datatype DataRegion = DataRegion(first: Address, last: Address) {
    predicate Contains(pc: Address) {
      first <= pc <= last
    }
  }

  datatype LiftOptions = LiftOptions(
    start: Address,
    end: Address,
    entryName: string,
    labelPrefix: Option<string>,
    windowStart: Address,
    windowEnd: int,
    dataRegions: seq<DataRegion>,
    extraLabels: seq<Address>,
    returnEscapes: seq<ReturnEscapeSite>,
    returnConsumes: seq<ReturnConsumeSite>,
    materializedCalls: seq<MaterializedCallSite>,
    engines: seq<JumpEngineSite>)

  // ----- labels -----

  function HexDigit(d: int): char
    requires 0 <= d < 16
  {
    "0123456789ABCDEF"[d]
  }

  function Hex4(a: Address): string {
    [HexDigit(a / 4096), HexDigit(a / 256 % 16), HexDigit(a / 16 % 16), HexDigit(a % 16)]
  }

  function LabelFor(a: Address, opts: LiftOptions): string {
    if opts.labelPrefix.Some? && opts.windowStart <= a < opts.windowEnd
    then "L_" + opts.labelPrefix.value + Hex4(a)
    else "L_" + Hex4(a)
  }

  lemma HexDigitInjective(d: int, e: int)
    requires 0 <= d < 16 && 0 <= e < 16
    requires HexDigit(d) == HexDigit(e)
    ensures d == e
  {
  }

  lemma Hex4Injective(a: Address, b: Address)
    requires Hex4(a) == Hex4(b)
    ensures a == b
  {
    var h, k := Hex4(a), Hex4(b);
    assert h[0] == k[0] && h[1] == k[1] && h[2] == k[2] && h[3] == k[3];
    HexDigitInjective(a / 4096, b / 4096);
    HexDigitInjective(a / 256 % 16, b / 256 % 16);
    HexDigitInjective(a / 16 % 16, b / 16 % 16);
    HexDigitInjective(a % 16, b % 16);
    Nibbles(a);
    Nibbles(b);
  }

  lemma Nibbles(a: Address)
    ensures a == 4096 * (a / 4096) + 256 * (a / 256 % 16) + 16 * (a / 16 % 16) + a % 16
  {
    assert a / 16 / 16 == a / 256 && a / 256 / 16 == a / 4096;
  }

  lemma SuffixesEqual(p: string, a: string, q: string, b: string)
    requires p + a == q + b && |a| == |b|
    ensures a == b
  {
    assert |p| == |q|;
    assert a == (p + a)[|p|..] && b == (q + b)[|q|..];
  }

  /** Under one set of options two addresses never share a label. */
  lemma LabelForInjective(a: Address, b: Address, opts: LiftOptions)
    requires LabelFor(a, opts) == LabelFor(b, opts)
    ensures a == b
  {
    var p := if opts.labelPrefix.Some? && opts.windowStart <= a < opts.windowEnd then "L_" + opts.labelPrefix.value else "L_";
    var q := if opts.labelPrefix.Some? && opts.windowStart <= b < opts.windowEnd then "L_" + opts.labelPrefix.value else "L_";
    assert LabelFor(a, opts) == p + Hex4(a) && LabelFor(b, opts) == q + Hex4(b);
    SuffixesEqual(p, Hex4(a), q, Hex4(b));
    Hex4Injective(a, b);
  }

  // ----- one instruction -----

  function MakeAddrExpr(mode: AddrMode, addr: Address): AddrExpr
    requires MemoryMode(mode)
  {
    match mode
    case ZeroPage => ZpConst(Low(addr))
    case ZeroPageX => ZpIndexedX(Low(addr))
    case ZeroPageY => ZpIndexedY(Low(addr))
    case Absolute => Const(addr)
    case AbsoluteX => AbsIndexedX(addr)
    case AbsoluteY => AbsIndexedY(addr)
    case IndirectX => IndirectPtrX(Low(addr))
    case IndirectY => IndirectPtrY(Low(addr))
  }

  function BranchCond(mn: Mnemonic): Cond
    requires Branches(mn)
  {
    match mn
    case BCC => NoCarry
    case BCS => Carry
    case BEQ => Zero
    case BNE => NotZero
    case BMI => Negative
    case BPL => Positive
    case BVC => NoOverflow
    case BVS => Overflow
  }

  function ReadOpOf(mn: Mnemonic): ReadOp
    requires ReadsOperand(mn) && !mn.LAX?
  {
    match mn
    case LDA => Lda
    case LDX => Ldx
    case LDY => Ldy
    case AND => And
    case ORA => Ora
    case EOR => Eor
    case ADC => Adc
    case SBC => Sbc
    case CMP => Cmp
    case CPX => Cpx
    case CPY => Cpy
  }

  function RegisterOpOf(mn: Mnemonic): RegisterOp
    requires IsImplied(mn)
  {
    match mn
    case TAX => Tax
    case TAY => Tay
    case TXA => Txa
    case TYA => Tya
    case TSX => Tsx
    case TXS => Txs
    case PHA => Pha
    case PHP => Php
    case PLA => Pla
    case PLP => Plp
    case INX => Inx
    case INY => Iny
    case DEX => Dex
    case DEY => Dey
    case CLC => Clc
    case SEC => Sec
    case CLI => Cli
    case SEI => Sei
    case CLV => Clv
    case CLD => Cld
    case SED => Sed
    case NOP => Nop
  }

  /** Loads, ALU operations and comparisons; LAX is a load followed by a transfer. */
  function LiftRead(insn: Instruction): seq<Op>
    requires insn.Valid() && ReadsOperand(insn.mnemonic)
  {
    var mn := insn.mnemonic;
    if insn.mode.Immediate? then
      if mn.LAX? then [Unsupported(insn.pc, insn.opcode)] else [ReadImm(ReadOpOf(mn), insn.operand.value)]
    else
      var addr := MakeAddrExpr(insn.mode, insn.operand.addr);
      var region := ClassifyAddr(insn.operand.addr);
      if mn.LAX? then [ReadMem(Lda, addr, region), Register(Tax)] else [ReadMem(ReadOpOf(mn), addr, region)]
  }

  /** Stores, bit tests and memory modification; the combined instructions become two operations. */
  function LiftMemory(insn: Instruction): seq<Op>
    requires insn.Valid() && AlwaysMemory(insn.mnemonic)
  {
    var addr := MakeAddrExpr(insn.mode, insn.operand.addr);
    var region := ClassifyAddr(insn.operand.addr);
    if IsRmwPair(insn.mnemonic) then PairOps(insn.mnemonic, addr, region) else [MemoryOp(insn.mnemonic, addr, region)]
  }

  function MemoryOp(mn: Mnemonic, addr: AddrExpr, region: MemRegion): Op
    requires AlwaysMemory(mn) && !IsRmwPair(mn)
  {
    match mn
    case STA => StoreMem(Sta, addr, region)
    case STX => StoreMem(Stx, addr, region)
    case STY => StoreMem(Sty, addr, region)
    case SAX => StoreMem(Sax, addr, region)
    case INC => ModifyMem(Inc, addr, region)
    case DEC => ModifyMem(Dec, addr, region)
    case BIT => ReadMem(BitTest, addr, region)
  }

  function PairOps(mn: Mnemonic, addr: AddrExpr, region: MemRegion): seq<Op>
    requires IsRmwPair(mn)
  {
    [ModifyMem(PairModify(mn), addr, region), ReadMem(PairCombine(mn), addr, region)]
  }

  function PairModify(mn: Mnemonic): ModifyOp
    requires IsRmwPair(mn)
  {
    match mn
    case DCP => Dec
    case ISC => Inc
    case SLO => AslM
    case RLA => RolM
    case SRE => LsrM
    case RRA => RorM
  }

  function PairCombine(mn: Mnemonic): ReadOp
    requires IsRmwPair(mn)
  {
    match mn
    case DCP => Cmp
    case ISC => Sbc
    case SLO => Ora
    case RLA => And
    case SRE => Eor
    case RRA => Adc
  }

  function LiftShift(insn: Instruction): seq<Op>
    requires insn.Valid() && IsShift(insn.mnemonic)
  {
    if insn.mode.Accumulator? then [Register(ShiftAOp(insn.mnemonic))]
    else [ModifyMem(ShiftMemOp(insn.mnemonic), MakeAddrExpr(insn.mode, insn.operand.addr), ClassifyAddr(insn.operand.addr))]
  }

  function ShiftAOp(mn: Mnemonic): RegisterOp
    requires IsShift(mn)
  {
    match mn case ASL => AslA case LSR => LsrA case ROL => RolA case ROR => RorA
  }

  function ShiftMemOp(mn: Mnemonic): ModifyOp
    requires IsShift(mn)
  {
    match mn case ASL => AslM case LSR => LsrM case ROL => RolM case ROR => RorM
  }

  function LiftJump(insn: Instruction, opts: LiftOptions): seq<Op>
    requires insn.Valid() && insn.mnemonic.JMP?
  {
    if insn.mode.Indirect? then [JmpIndirect(insn.operand.addr)] else
    var target := insn.operand.addr;
    match FindEscape(opts.returnEscapes, insn.pc)
    case None => [Jmp(LabelFor(target, opts))]
    case Some(site) =>
      if site.target != target then [Unsupported(insn.pc, insn.opcode)]
      else [ReturnEscape(LabelFor(target, opts), site.returnAddr, site.alreadyConsumed)]
  }

  /** The dispatch call profiled at `pc`. */
  function FindEngine(sites: seq<JumpEngineSite>, pc: Address): (r: Option<JumpEngineSite>)
    ensures r.Some? ==> r.value in sites && r.value.caller == pc
    ensures r.None? ==> forall site :: site in sites ==> site.caller != pc
  {
    if sites == [] then None
    else if sites[0].caller == pc then Some(sites[0])
    else FindEngine(sites[1..], pc)
  }

  function LiftCall(insn: Instruction, opts: LiftOptions): seq<Op>
    requires insn.Valid() && insn.mnemonic.JSR?
  {
    match FindEngine(opts.engines, insn.pc)
    case Some(site) =>
      [JumpEngineCall(site.targets, site.returnTarget, site.tailIndices, site.stackReturnBytes, site.targetEntryA)]
    case None =>
      var name := LabelFor(insn.operand.addr, opts);
      if exists site :: site in opts.materializedCalls && site.caller == insn.pc
      then [MaterializedJsr(name, WrapAddress(insn.pc + 2))]
      else [Jsr(name)]
  }

  function FindEscape(sites: seq<ReturnEscapeSite>, caller: Address): (r: Option<ReturnEscapeSite>)
    ensures r.Some? ==> r.value in sites && r.value.caller == caller
    ensures r.None? ==> forall site :: site in sites ==> site.caller != caller
  {
    if sites == [] then None
    else if sites[0].caller == caller then Some(sites[0])
    else FindEscape(sites[1..], caller)
  }

  /** The operations one instruction becomes. */
  function LiftInsn(insn: Instruction, opts: LiftOptions): (ops: seq<Op>)
    requires insn.Valid()
    ensures 1 <= |ops| <= 2
    ensures forall k :: 0 <= k < |ops| ==> !ops[k].Label? && !ops[k].Source?
  {
    var mn := insn.mnemonic;
    if FindEscape(opts.returnEscapes, insn.pc).Some? && !(mn.JMP? && insn.mode.Absolute?) then
      [Unsupported(insn.pc, insn.opcode)]
    else if ReadsOperand(mn) then LiftRead(insn)
    else if AlwaysMemory(mn) then LiftMemory(insn)
    else if IsShift(mn) then LiftShift(insn)
    else if IsImplied(mn) then [Register(RegisterOpOf(mn))]
    else if Branches(mn) then [BranchIf(BranchCond(mn), LabelFor(insn.BranchTarget().value, opts))]
    else if mn.JMP? then LiftJump(insn, opts)
    else if mn.JSR? then LiftCall(insn, opts)
    else if mn.RTS? then [Rts]
    else if mn.RTI? then [Rti]
    else if mn.BRK? then [Brk(insn.pc)]
    else if mn.JAM? then [Jam(insn.pc, insn.opcode)]
    else [Unsupported(insn.pc, insn.opcode)]
  }

  // ----- preservation -----

  lemma LowOfByte(a: Address)
    requires a < 256
    ensures Low(a) == a == a % 256
  {
  }

  /** The lifter's address expression denotes the interpreter's effective address. */
  lemma AddrExprIsEffectiveAddress(mode: AddrMode, addr: Address, m: Machine)
    requires MemoryMode(mode)
    requires OperandMatches(mode, Addr(addr))
    ensures Resolve(MakeAddrExpr(mode, addr), m) == EffectiveAddress(mode, addr, m)
  {
    hide Bus.Pointer, WrapAddress;
    if addr < 256 {
      LowOfByte(addr);
    }
  }

  /** Instructions the lifter neither refuses nor hands to the runtime. */
  predicate Translated(insn: Instruction, opts: LiftOptions) {
    && insn.Valid() && Straight(insn.mnemonic)
    && !(insn.mnemonic.LAX? && insn.mode.Immediate?)
    && FindEscape(opts.returnEscapes, insn.pc).None?
  }

  lemma EffectsOfOne(op: Op, m: Machine)
    requires Sequential(op)
    ensures Effects([op], m) == Effect(op, m)
  {
  }

  lemma EffectsOfTwo(op1: Op, op2: Op, m: Machine)
    requires Sequential(op1) && Sequential(op2)
    ensures Effects([op1, op2], m) == Effect(op2, Effect(op1, m))
  {
    assert [op1, op2][1..] == [op2];
    EffectsOfOne(op2, Effect(op1, m));
  }

  /** What the mode of a valid instruction says about its operand. */
  lemma OperandShape(insn: Instruction)
    requires insn.Valid()
    ensures ReadsOperand(insn.mnemonic) ==> insn.mode.Immediate? || MemoryMode(insn.mode)
    ensures AlwaysMemory(insn.mnemonic) ==> MemoryMode(insn.mode)
    ensures IsShift(insn.mnemonic) ==> insn.mode.Accumulator? || MemoryMode(insn.mode)
    ensures MemoryMode(insn.mode) ==> insn.operand.Addr? && OperandMatches(insn.mode, Addr(insn.operand.addr))
    ensures insn.mode.Immediate? ==> insn.operand.Imm?
  {
  }

  lemma ReadMeaning(mn: Mnemonic, v: Byte, m: Machine)
    requires ReadsOperand(mn)
    ensures !mn.LAX? ==> ReadEffect(ReadOpOf(mn), v, m) == ExecuteRead(mn, v, m)
    ensures mn.LAX? ==> RegisterEffect(Tax, ReadEffect(Lda, v, m)) == ExecuteRead(mn, v, m)
  {
  }

  lemma ReadMemoryPreserved(mn: Mnemonic, mode: AddrMode, addr: Address, m: Machine)
    requires ReadsOperand(mn) && MemoryMode(mode) && OperandMatches(mode, Addr(addr))
    ensures var e, region := MakeAddrExpr(mode, addr), ClassifyAddr(addr);
            var ops := if mn.LAX? then [ReadMem(Lda, e, region), Register(Tax)] else [ReadMem(ReadOpOf(mn), e, region)];
            AllSequential(ops) && Effects(ops, m) == ExecuteRead(mn, m.bus.Read(EffectiveAddress(mode, addr, m)), m)
  {
    var e, region := MakeAddrExpr(mode, addr), ClassifyAddr(addr);
    AddrExprIsEffectiveAddress(mode, addr, m);
    ReadMeaning(mn, m.bus.Read(EffectiveAddress(mode, addr, m)), m);
    if mn.LAX? {
      EffectsOfTwo(ReadMem(Lda, e, region), Register(Tax), m);
    } else {
      EffectsOfOne(ReadMem(ReadOpOf(mn), e, region), m);
    }
  }

  lemma ReadPreserved(insn: Instruction, m: Machine)
    requires insn.Valid() && ReadsOperand(insn.mnemonic)
    requires !(insn.mnemonic.LAX? && insn.mode.Immediate?)
    ensures AllSequential(LiftRead(insn)) && Effects(LiftRead(insn), m) == ExecuteStraight(insn, m)
  {
    OperandShape(insn);
    if insn.mode.Immediate? {
      ReadMeaning(insn.mnemonic, insn.operand.value, m);
      EffectsOfOne(ReadImm(ReadOpOf(insn.mnemonic), insn.operand.value), m);
    } else {
      ReadMemoryPreserved(insn.mnemonic, insn.mode, insn.operand.addr, m);
    }
  }

  lemma StoreMeaning(mn: Mnemonic, e: AddrExpr, region: MemRegion, m: Machine)
    requires mn.STA? || mn.STX? || mn.STY? || mn.SAX?
    ensures Sequential(MemoryOp(mn, e, region)) && Effect(MemoryOp(mn, e, region), m) == ExecuteMemory(mn, Resolve(e, m), m)
  {
    var ea := Resolve(e, m);
    if mn.STA? {
      assert Effect(StoreMem(Sta, e, region), m) == m.Store(ea, m.a);
    } else if mn.STX? {
      assert Effect(StoreMem(Stx, e, region), m) == m.Store(ea, m.x);
    } else if mn.STY? {
      assert Effect(StoreMem(Sty, e, region), m) == m.Store(ea, m.y);
    } else {
      assert Effect(StoreMem(Sax, e, region), m) == m.Store(ea, And8(m.a, m.x));
    }
  }

  lemma StepMeaning(mn: Mnemonic, e: AddrExpr, region: MemRegion, m: Machine)
    requires mn.INC? || mn.DEC?
    ensures Sequential(MemoryOp(mn, e, region)) && Effect(MemoryOp(mn, e, region), m) == ExecuteMemory(mn, Resolve(e, m), m)
  {
    var ea := Resolve(e, m);
    if mn.INC? {
      assert Effect(ModifyMem(Inc, e, region), m) == m.StepMem(ea, 1);
    } else {
      assert Effect(ModifyMem(Dec, e, region), m) == m.StepMem(ea, -1);
    }
  }

  lemma BitMeaning(e: AddrExpr, region: MemRegion, m: Machine)
    ensures Sequential(MemoryOp(BIT, e, region)) && Effect(MemoryOp(BIT, e, region), m) == ExecuteMemory(BIT, Resolve(e, m), m)
  {
    assert Effect(ReadMem(BitTest, e, region), m) == m.Bit(m.bus.Read(Resolve(e, m)));
  }

  lemma MemoryOpMeaning(mn: Mnemonic, e: AddrExpr, region: MemRegion, m: Machine)
    requires AlwaysMemory(mn) && !IsRmwPair(mn)
    ensures Sequential(MemoryOp(mn, e, region)) && Effect(MemoryOp(mn, e, region), m) == ExecuteMemory(mn, Resolve(e, m), m)
  {
    if mn.BIT? {
      BitMeaning(e, region, m);
    } else if mn.INC? || mn.DEC? {
      StepMeaning(mn, e, region, m);
    } else {
      StoreMeaning(mn, e, region, m);
    }
  }

  lemma MemoryPreserved(insn: Instruction, m: Machine)
    requires insn.Valid() && AlwaysMemory(insn.mnemonic) && !IsRmwPair(insn.mnemonic)
    ensures AllSequential(LiftMemory(insn)) && Effects(LiftMemory(insn), m) == ExecuteStraight(insn, m)
  {
    OperandShape(insn);
    var e, region := MakeAddrExpr(insn.mode, insn.operand.addr), ClassifyAddr(insn.operand.addr);
    AddrExprIsEffectiveAddress(insn.mode, insn.operand.addr, m);
    MemoryOpMeaning(insn.mnemonic, e, region, m);
    EffectsOfOne(MemoryOp(insn.mnemonic, e, region), m);
  }

  lemma ShiftMeaning(mn: Mnemonic, ea: Address, m: Machine)
    requires IsShift(mn)
    ensures RegisterEffect(ShiftAOp(mn), m) == m.ShiftA(ShiftOf(mn))
    ensures ModifyEffect(ShiftMemOp(mn), ea, m) == m.ShiftMem(ShiftOf(mn), ea)
  {
  }

  lemma ShiftMemoryPreserved(mn: Mnemonic, mode: AddrMode, addr: Address, m: Machine)
    requires IsShift(mn) && MemoryMode(mode) && OperandMatches(mode, Addr(addr))
    ensures var op := ModifyMem(ShiftMemOp(mn), MakeAddrExpr(mode, addr), ClassifyAddr(addr));
            Sequential(op) && Effects([op], m) == m.ShiftMem(ShiftOf(mn), EffectiveAddress(mode, addr, m))
  {
    AddrExprIsEffectiveAddress(mode, addr, m);
    ShiftMeaning(mn, EffectiveAddress(mode, addr, m), m);
    EffectsOfOne(ModifyMem(ShiftMemOp(mn), MakeAddrExpr(mode, addr), ClassifyAddr(addr)), m);
  }

  lemma ShiftAPreserved(mn: Mnemonic, m: Machine)
    requires IsShift(mn)
    ensures Effects([Register(ShiftAOp(mn))], m) == m.ShiftA(ShiftOf(mn))
  {
    ShiftMeaning(mn, 0, m);
    EffectsOfOne(Register(ShiftAOp(mn)), m);
  }

  lemma StraightShift(insn: Instruction, m: Machine)
    requires insn.Valid() && IsShift(insn.mnemonic)
    ensures ExecuteStraight(insn, m)
            == if insn.mode.Accumulator? then m.ShiftA(ShiftOf(insn.mnemonic))
               else m.ShiftMem(ShiftOf(insn.mnemonic), EffectiveAddress(insn.mode, insn.operand.addr, m))
  {
  }

  lemma ShiftPreserved(insn: Instruction, m: Machine)
    requires insn.Valid() && IsShift(insn.mnemonic)
    ensures AllSequential(LiftShift(insn)) && Effects(LiftShift(insn), m) == ExecuteStraight(insn, m)
  {
    OperandShape(insn);
    StraightShift(insn, m);
    if insn.mode.Accumulator? {
      ShiftAPreserved(insn.mnemonic, m);
    } else {
      ShiftMemoryPreserved(insn.mnemonic, insn.mode, insn.operand.addr, m);
    }
  }

  lemma RegisterPreserved(mn: Mnemonic, m: Machine)
    requires IsImplied(mn)
    ensures RegisterEffect(RegisterOpOf(mn), m) == ExecuteImplied(mn, m)
  {
    hide FlagsByte, ByteFlags, WrapByte;
  }

  /** The machine after the memory half, before its N and Z. */
  function Written(mn: Mnemonic, ea: Address, m: Machine): Machine
    requires IsRmwPair(mn)
  {
    var (w, c) := RmwWrite(mn, ea, m);
    m.(f := m.f.(c := c)).Store(ea, w)
  }

  lemma ModifyHalf(mn: Mnemonic, ea: Address, m: Machine)
    requires IsRmwPair(mn)
    ensures ModifyEffect(PairModify(mn), ea, m) == Written(mn, ea, m).WithNZ(RmwWrite(mn, ea, m).0)
  {
  }

  lemma CompareHalf(v: Byte, w: Byte, k: Machine)
    ensures k.WithNZ(w).Compare(k.a, v) == k.Compare(k.a, v) && k.WithNZ(w).a == k.a
  {
  }

  lemma SbcHalf(v: Byte, w: Byte, k: Machine)
    ensures k.WithNZ(w).Sbc(v) == k.Sbc(v)
  {
  }

  lemma AdcHalf(v: Byte, w: Byte, k: Machine)
    ensures k.WithNZ(w).Adc(v) == k.Adc(v)
  {
  }

  lemma LoadHalf(mn: Mnemonic, v: Byte, w: Byte, k: Machine)
    requires mn.SLO? || mn.RLA? || mn.SRE?
    ensures ReadEffect(PairCombine(mn), v, k.WithNZ(w)) == RmwCombine(mn, v, k)
  {
    var n := k.WithNZ(w);
    assert forall x: Byte :: n.LoadA(x) == k.LoadA(x);
  }

  lemma CombineHalf(mn: Mnemonic, v: Byte, w: Byte, k: Machine)
    requires IsRmwPair(mn)
    ensures ReadEffect(PairCombine(mn), v, k.WithNZ(w)) == RmwCombine(mn, v, k)
  {
    if mn.DCP? {
      CompareHalf(v, w, k);
    } else if mn.ISC? {
      SbcHalf(v, w, k);
    } else if mn.RRA? {
      AdcHalf(v, w, k);
    } else {
      LoadHalf(mn, v, w, k);
    }
  }

  /** The byte the second operation of a combined instruction reads back. */
  function Reread(insn: Instruction, m: Machine): Byte
    requires insn.Valid() && IsRmwPair(insn.mnemonic)
  {
    var written := Written(insn.mnemonic, EffectiveAddress(insn.mode, insn.operand.addr, m), m);
    written.bus.Read(EffectiveAddress(insn.mode, insn.operand.addr, written))
  }

  /** The second operation recomputes the address and rereads memory: it must see the byte just written. */
  predicate Coherent(insn: Instruction, m: Machine)
    requires insn.Valid() && IsRmwPair(insn.mnemonic)
  {
    Reread(insn, m) == RmwWrite(insn.mnemonic, EffectiveAddress(insn.mode, insn.operand.addr, m), m).0
  }

  lemma ResolveIgnoresFlags(e: AddrExpr, k: Machine, w: Byte)
    ensures Resolve(e, k.WithNZ(w)) == Resolve(e, k)
  {
  }

  /** The two operations of a combined instruction, in terms of the byte the second one reads. */
  lemma TwoOps(mn: Mnemonic, e: AddrExpr, region: MemRegion, m: Machine)
    requires IsRmwPair(mn)
    ensures var written := Written(mn, Resolve(e, m), m);
            AllSequential(PairOps(mn, e, region))
            && Effects(PairOps(mn, e, region), m) == RmwCombine(mn, written.bus.Read(Resolve(e, written)), written)
  {
    var op1, op2 := ModifyMem(PairModify(mn), e, region), ReadMem(PairCombine(mn), e, region);
    var ea := Resolve(e, m);
    var written := Written(mn, ea, m);
    var w := RmwWrite(mn, ea, m).0;
    EffectsOfTwo(op1, op2, m);
    ModifyHalf(mn, ea, m);
    ResolveIgnoresFlags(e, written, w);
    CombineHalf(mn, written.bus.Read(Resolve(e, written)), w, written);
  }

  lemma PairOpsEffect(mn: Mnemonic, mode: AddrMode, addr: Address, m: Machine)
    requires IsRmwPair(mn) && MemoryMode(mode) && OperandMatches(mode, Addr(addr))
    ensures var ops := PairOps(mn, MakeAddrExpr(mode, addr), ClassifyAddr(addr));
            var written := Written(mn, EffectiveAddress(mode, addr, m), m);
            AllSequential(ops) && Effects(ops, m) == RmwCombine(mn, written.bus.Read(EffectiveAddress(mode, addr, written)), written)
  {
    AddrExprIsEffectiveAddress(mode, addr, m);
    AddrExprIsEffectiveAddress(mode, addr, Written(mn, EffectiveAddress(mode, addr, m), m));
    TwoOps(mn, MakeAddrExpr(mode, addr), ClassifyAddr(addr), m);
  }

  lemma PairEffect(insn: Instruction, m: Machine)
    requires insn.Valid() && IsRmwPair(insn.mnemonic)
    ensures AllSequential(LiftMemory(insn))
    ensures Effects(LiftMemory(insn), m)
            == RmwCombine(insn.mnemonic, Reread(insn, m),
                          Written(insn.mnemonic, EffectiveAddress(insn.mode, insn.operand.addr, m), m))
  {
    OperandShape(insn);
    PairOpsEffect(insn.mnemonic, insn.mode, insn.operand.addr, m);
  }

  /** Every lifted instruction that falls through has exactly the interpreter's effect. */
  lemma LiftPreserves(insn: Instruction, opts: LiftOptions, m: Machine)
    requires Translated(insn, opts)
    requires IsRmwPair(insn.mnemonic) ==> Coherent(insn, m)
    ensures AllSequential(LiftInsn(insn, opts))
    ensures Effects(LiftInsn(insn, opts), m) == ExecuteStraight(insn, m)
  {
    var mn := insn.mnemonic;
    if ReadsOperand(mn) {
      ReadPreserved(insn, m);
    } else if IsRmwPair(mn) {
      PairEffect(insn, m);
    } else if AlwaysMemory(mn) {
      MemoryPreserved(insn, m);
    } else if IsShift(mn) {
      ShiftPreserved(insn, m);
    } else {
      RegisterPreserved(mn, m);
      EffectsOfOne(Register(RegisterOpOf(mn)), m);
    }
  }

  lemma LogicIdentities(w: Byte)
    ensures Or8(0, w) == w && And8(255, w) == w && Xor8(0, w) == w
  {
  }

  /** An accumulator that tells two operand bytes apart. */
  function Witness(mn: Mnemonic, w: Byte): Byte
    requires IsRmwPair(mn)
  {
    if mn.DCP? then w else if mn.RLA? then 255 else 0
  }

  lemma SumsSeparate(x: int, w: Byte, r: Byte)
    requires w != r
    ensures WrapByte(x + w) != WrapByte(x + r) && WrapByte(x - w) != WrapByte(x - r)
  {
    Congruent(x + w, x + r);
    Congruent(x - w, x - r);
  }

  lemma Congruent(s: int, t: int)
    requires -256 < s - t < 256 && s != t
    ensures s % 256 != t % 256
  {
    var p, q := s / 256, t / 256;
    assert s == 256 * p + s % 256 && t == 256 * q + t % 256;
  }

  lemma ArithmeticSeparates(w: Byte, r: Byte, k: Machine)
    requires w != r
    ensures k.Adc(w).a != k.Adc(r).a && k.Sbc(w).a != k.Sbc(r).a
  {
    SumsSeparate(k.a + BitOf(k.f.c), w, r);
    SumsSeparate(k.a - (1 - BitOf(k.f.c)), w, r);
  }

  lemma CompareSeparates(w: Byte, r: Byte, k: Machine)
    requires w != r
    ensures k.Compare(w, w).f.z && !k.Compare(w, r).f.z
  {
  }

  lemma CombineSeparates(mn: Mnemonic, w: Byte, r: Byte, k: Machine)
    requires IsRmwPair(mn) && w != r
    requires k.a == Witness(mn, w)
    ensures RmwCombine(mn, w, k) != RmwCombine(mn, r, k)
  {
    if mn.DCP? {
      CompareSeparates(w, r, k);
    } else if mn.ISC? || mn.RRA? {
      ArithmeticSeparates(w, r, k);
    } else {
      LogicIdentities(w);
      LogicIdentities(r);
      assert RmwCombine(mn, w, k).a == w && RmwCombine(mn, r, k).a == r;
    }
  }

  ghost predicate PairPreservedForEveryA(insn: Instruction, m: Machine)
    requires insn.Valid() && IsRmwPair(insn.mnemonic)
    requires AllSequential(LiftMemory(insn))
  {
    forall a: Byte :: Effects(LiftMemory(insn), m.(a := a)) == ExecuteStraight(insn, m.(a := a))
  }

  /** The operand's address depends on the index registers and memory alone. */
  lemma AddressDependsOn(mode: AddrMode, addr: Address, m: Machine, k: Machine)
    requires m.x == k.x && m.y == k.y && m.bus == k.bus
    ensures EffectiveAddress(mode, addr, m) == EffectiveAddress(mode, addr, k)
  {
  }

  lemma WriteIgnoresA(mn: Mnemonic, ea: Address, m: Machine, a: Byte)
    requires IsRmwPair(mn)
    ensures RmwWrite(mn, ea, m.(a := a)) == RmwWrite(mn, ea, m)
    ensures Written(mn, ea, m.(a := a)) == Written(mn, ea, m).(a := a)
  {
  }

  /** Neither the address, the byte written nor the byte reread depends on A. */
  lemma PairIgnoresA(insn: Instruction, m: Machine, a: Byte)
    requires insn.Valid() && IsRmwPair(insn.mnemonic)
    ensures var ea := EffectiveAddress(insn.mode, insn.operand.addr, m);
            && EffectiveAddress(insn.mode, insn.operand.addr, m.(a := a)) == ea
            && RmwWrite(insn.mnemonic, ea, m.(a := a)) == RmwWrite(insn.mnemonic, ea, m)
            && Written(insn.mnemonic, ea, m.(a := a)) == Written(insn.mnemonic, ea, m).(a := a)
            && Reread(insn, m.(a := a)) == Reread(insn, m)
  {
    var mode, addr, mn := insn.mode, insn.operand.addr, insn.mnemonic;
    var ea := EffectiveAddress(mode, addr, m);
    AddressDependsOn(mode, addr, m, m.(a := a));
    WriteIgnoresA(mn, ea, m, a);
    AddressDependsOn(mode, addr, Written(mn, ea, m), Written(mn, ea, m).(a := a));
  }

  /** The interpreter's combined instruction, split the same way. */
  lemma PairMeaning(insn: Instruction, m: Machine)
    requires insn.Valid() && IsRmwPair(insn.mnemonic)
    ensures var ea := EffectiveAddress(insn.mode, insn.operand.addr, m);
            ExecuteStraight(insn, m)
            == RmwCombine(insn.mnemonic, RmwWrite(insn.mnemonic, ea, m).0, Written(insn.mnemonic, ea, m))
  {
  }

  lemma PairWithA(insn: Instruction, m: Machine, a: Byte)
    requires insn.Valid() && IsRmwPair(insn.mnemonic)
    ensures AllSequential(LiftMemory(insn))
    ensures var ea := EffectiveAddress(insn.mode, insn.operand.addr, m);
            Effects(LiftMemory(insn), m.(a := a))
            == RmwCombine(insn.mnemonic, Reread(insn, m), Written(insn.mnemonic, ea, m).(a := a))
    ensures var ea := EffectiveAddress(insn.mode, insn.operand.addr, m);
            ExecuteStraight(insn, m.(a := a))
            == RmwCombine(insn.mnemonic, RmwWrite(insn.mnemonic, ea, m).0, Written(insn.mnemonic, ea, m).(a := a))
  {
    PairIgnoresA(insn, m, a);
    PairMeaning(insn, m.(a := a));
    PairEffect(insn, m.(a := a));
  }

  /**
   The two-operation form of DCP, ISC, SLO, RLA, SRE and RRA is faithful for every
   accumulator exactly when the second operation rereads the byte the first wrote.
   */
  lemma PairPreservedIffCoherent(insn: Instruction, m: Machine)
    requires insn.Valid() && IsRmwPair(insn.mnemonic)
    ensures AllSequential(LiftMemory(insn))
    ensures PairPreservedForEveryA(insn, m) <==> Coherent(insn, m)
  {
    PairEffect(insn, m);
    if Coherent(insn, m) {
      forall a: Byte
        ensures Effects(LiftMemory(insn), m.(a := a)) == ExecuteStraight(insn, m.(a := a))
      {
        PairWithA(insn, m, a);
      }
    } else {
      var a := IncoherentFails(insn, m);
    }
  }

  /** The two bytes a zero-page pointer operand is read from. */
  predicate PointerByte(mode: AddrMode, addr: Address, m: Machine, a: Address) {
    || (mode.IndirectX? && (a == (addr + m.x) % 256 || a == ((addr + m.x) % 256 + 1) % 256))
    || (mode.IndirectY? && (a == addr % 256 || a == (addr % 256 + 1) % 256))
  }

  /** Writable operands that are not the instruction's own pointer bytes are always coherent. */
  lemma WritableOperandIsCoherent(insn: Instruction, m: Machine)
    requires insn.Valid() && IsRmwPair(insn.mnemonic)
    requires var ea := EffectiveAddress(insn.mode, insn.operand.addr, m);
             ea < m.bus.romStart && !PointerByte(insn.mode, insn.operand.addr, m, ea)
    ensures Coherent(insn, m)
  {
  }

  /** On a read-only operand the pair is coherent only if the write would not have changed the byte. */
  lemma ReadOnlyOperand(insn: Instruction, m: Machine)
    requires insn.Valid() && IsRmwPair(insn.mnemonic)
    requires EffectiveAddress(insn.mode, insn.operand.addr, m) >= m.bus.romStart
    ensures var ea := EffectiveAddress(insn.mode, insn.operand.addr, m);
            Coherent(insn, m) <==> RmwWrite(insn.mnemonic, ea, m).0 == m.bus.Read(ea)
  {
  }

  /** Where the second operation looks, once the first has written. */
  function RereadAddress(insn: Instruction, m: Machine): Address
    requires insn.Valid() && IsRmwPair(insn.mnemonic)
  {
    EffectiveAddress(insn.mode, insn.operand.addr, Written(insn.mnemonic, EffectiveAddress(insn.mode, insn.operand.addr, m), m))
  }

  /** Where an indirect operand's pointer stands in zero page. */
  function PointerBase(insn: Instruction, m: Machine): int
    requires insn.Valid() && IsRmwPair(insn.mnemonic)
  {
    if insn.mode.IndirectX? then (insn.operand.addr + m.x) % 256 else insn.operand.addr % 256
  }

  lemma WrittenShape(mn: Mnemonic, ea: Address, m: Machine)
    requires IsRmwPair(mn)
    ensures var k := Written(mn, ea, m);
            k.x == m.x && k.y == m.y && k.bus == m.bus.Write(ea, RmwWrite(mn, ea, m).0)
  {
  }

  lemma PointerAtBase(insn: Instruction, m: Machine, a: Address)
    requires insn.Valid() && IsRmwPair(insn.mnemonic) && PointerByte(insn.mode, insn.operand.addr, m, a)
    ensures insn.mode.IndirectX? || insn.mode.IndirectY?
    ensures 0 <= PointerBase(insn, m) < 256 && (a == PointerBase(insn, m) || a == (PointerBase(insn, m) + 1) % 256)
  {
  }

  lemma PointedOperand(insn: Instruction, m: Machine, k: Machine)
    requires insn.Valid() && IsRmwPair(insn.mnemonic) && (insn.mode.IndirectX? || insn.mode.IndirectY?)
    requires k.x == m.x && k.y == m.y
    ensures 0 <= PointerBase(insn, m) < 256
    ensures EffectiveAddress(insn.mode, insn.operand.addr, k)
            == if insn.mode.IndirectX? then k.bus.Pointer(PointerBase(insn, m)) else WrapAddress(k.bus.Pointer(PointerBase(insn, m)) + m.y)
  {
  }

  lemma PointerMoves(bus: Bus, zp: int, a: Address, w: Byte)
    requires 0 <= zp < 256 && a < bus.romStart && (a == zp || a == (zp + 1) % 256) && w != bus.Read(a)
    ensures bus.Write(a, w).Pointer(zp) != bus.Pointer(zp)
  {
    var lo, hi := bus.mem[zp], bus.mem[(zp + 1) % 256];
    assert bus.Write(a, w).Pointer(zp) == if a == zp then Word(w, hi) else Word(lo, w);
  }

  lemma WrapSeparates(p: Address, q: Address, y: Byte)
    requires p != q
    ensures WrapAddress(p + y) != WrapAddress(q + y)
  {
  }

  /** Two machines that differ in an indirect operand's pointer differ in its address. */
  lemma OtherPointer(insn: Instruction, m: Machine, k: Machine)
    requires insn.Valid() && IsRmwPair(insn.mnemonic) && (insn.mode.IndirectX? || insn.mode.IndirectY?)
    requires k.x == m.x && k.y == m.y && 0 <= PointerBase(insn, m) < 256
    requires k.bus.Pointer(PointerBase(insn, m)) != m.bus.Pointer(PointerBase(insn, m))
    ensures EffectiveAddress(insn.mode, insn.operand.addr, k) != EffectiveAddress(insn.mode, insn.operand.addr, m)
  {
    PointedOperand(insn, m, m);
    PointedOperand(insn, m, k);
    WrapSeparates(m.bus.Pointer(PointerBase(insn, m)), k.bus.Pointer(PointerBase(insn, m)), m.y);
  }

  lemma PointerChangeMoves(insn: Instruction, m: Machine, k: Machine, a: Address, w: Byte)
    requires insn.Valid() && IsRmwPair(insn.mnemonic) && PointerByte(insn.mode, insn.operand.addr, m, a)
    requires a < m.bus.romStart && w != m.bus.Read(a)
    requires k.x == m.x && k.y == m.y && k.bus == m.bus.Write(a, w)
    ensures EffectiveAddress(insn.mode, insn.operand.addr, k) != EffectiveAddress(insn.mode, insn.operand.addr, m)
  {
    var zp := PointerBase(insn, m);
    PointerAtBase(insn, m, a);
    PointerMoves(m.bus, zp, a, w);
    OtherPointer(insn, m, k);
  }

  /** Writing another value over one of its own pointer bytes moves the operand. */
  lemma PointerWriteMovesOperand(insn: Instruction, m: Machine)
    requires insn.Valid() && IsRmwPair(insn.mnemonic)
    requires var ea := EffectiveAddress(insn.mode, insn.operand.addr, m);
             && ea < m.bus.romStart && PointerByte(insn.mode, insn.operand.addr, m, ea)
             && RmwWrite(insn.mnemonic, ea, m).0 != m.bus.Read(ea)
    ensures RereadAddress(insn, m) != EffectiveAddress(insn.mode, insn.operand.addr, m)
  {
    var ea := EffectiveAddress(insn.mode, insn.operand.addr, m);
    var w := RmwWrite(insn.mnemonic, ea, m).0;
    WrittenShape(insn.mnemonic, ea, m);
    PointerChangeMoves(insn, m, Written(insn.mnemonic, ea, m), ea, w);
  }

  /**
   Exactly when the pair is coherent: the write would not change the byte, or it lands and
   either is no pointer byte of the instruction or the byte at the moved operand happens to
   equal the one written.
   */
  lemma CoherentExactly(insn: Instruction, m: Machine)
    requires insn.Valid() && IsRmwPair(insn.mnemonic)
    ensures var ea := EffectiveAddress(insn.mode, insn.operand.addr, m);
            var w := RmwWrite(insn.mnemonic, ea, m).0;
            Coherent(insn, m) <==>
              || w == m.bus.Read(ea)
              || (ea < m.bus.romStart
                  && (PointerByte(insn.mode, insn.operand.addr, m, ea) ==> m.bus.Read(RereadAddress(insn, m)) == w))
  {
    var ea := EffectiveAddress(insn.mode, insn.operand.addr, m);
    var w := RmwWrite(insn.mnemonic, ea, m).0;
    if w == m.bus.Read(ea) {
      SameByteIsCoherent(insn, m);
    } else if ea >= m.bus.romStart {
      ReadOnlyOperand(insn, m);
    } else if PointerByte(insn.mode, insn.operand.addr, m, ea) {
      PointerWriteMovesOperand(insn, m);
    } else {
      WritableOperandIsCoherent(insn, m);
    }
  }

  lemma SameByteIsCoherent(insn: Instruction, m: Machine)
    requires insn.Valid() && IsRmwPair(insn.mnemonic)
    requires var ea := EffectiveAddress(insn.mode, insn.operand.addr, m);
             RmwWrite(insn.mnemonic, ea, m).0 == m.bus.Read(ea)
    ensures Coherent(insn, m)
  {
    var mode, addr, mn := insn.mode, insn.operand.addr, insn.mnemonic;
    var ea := EffectiveAddress(mode, addr, m);
    assert m.bus.Write(ea, m.bus.Read(ea)).mem == m.bus.mem;
    assert Written(mn, ea, m).bus == m.bus;
    AddressDependsOn(mode, addr, m, Written(mn, ea, m));
  }

  /** DCP and ISC always change the byte, so on a read-only operand their two operations go wrong for some accumulator. */
  lemma StepOnReadOnlyFails(insn: Instruction, m: Machine) returns (a: Byte)
    requires insn.Valid() && (insn.mnemonic.DCP? || insn.mnemonic.ISC?)
    requires EffectiveAddress(insn.mode, insn.operand.addr, m) >= m.bus.romStart
    ensures AllSequential(LiftMemory(insn))
    ensures Effects(LiftMemory(insn), m.(a := a)) != ExecuteStraight(insn, m.(a := a))
  {
    ReadOnlyOperand(insn, m);
    a := IncoherentFails(insn, m);
  }

  /** Where the pair is not coherent, this accumulator shows it. */
  lemma IncoherentFails(insn: Instruction, m: Machine) returns (a: Byte)
    requires insn.Valid() && IsRmwPair(insn.mnemonic) && !Coherent(insn, m)
    ensures AllSequential(LiftMemory(insn))
    ensures Effects(LiftMemory(insn), m.(a := a)) != ExecuteStraight(insn, m.(a := a))
  {
    var mn := insn.mnemonic;
    var ea := EffectiveAddress(insn.mode, insn.operand.addr, m);
    var w := RmwWrite(mn, ea, m).0;
    a := Witness(mn, w);
    PairWithA(insn, m, a);
    CombineSeparates(mn, w, Reread(insn, m), Written(mn, ea, m).(a := a));
  }

  lemma DecrementWrites(m: Machine, a: Address)
    ensures RmwWrite(DCP, a, m).0 == WrapByte(m.bus.Read(a) - 1)
  {
  }

  lemma PointerLowered(bus: Bus)
    requires bus.mem[0x10] == 0x10 && bus.mem[0x11] == 0 && bus.romStart > 0x10
    ensures bus.Pointer(0x10) == 0x10 && bus.Write(0x10, 0x0F).Pointer(0x10) == 0x0F
    ensures bus.Write(0x10, 0x0F).Read(0x0F) == bus.mem[0x0F]
  {
  }

  lemma ThroughPointer(m: Machine)
    ensures EffectiveAddress(IndirectY, 0x10, m) == WrapAddress(m.bus.Pointer(0x10) + m.y)
  {
  }

  lemma OwnPointerMoves(m: Machine)
    requires m.y == 0 && m.bus.mem[0x10] == 0x10 && m.bus.mem[0x11] == 0 && m.bus.mem[0x0F] == 0 && m.bus.romStart > 0x10
    ensures var k := Written(DCP, 0x10, m);
            k.bus.Read(EffectiveAddress(IndirectY, 0x10, k)) == 0
  {
    DecrementWrites(m, 0x10);
    WrittenShape(DCP, 0x10, m);
    PointerLowered(m.bus);
    ThroughPointer(Written(DCP, 0x10, m));
  }

  lemma OwnPointerOperand(m: Machine)
    requires m.y == 0 && m.bus.mem[0x10] == 0x10 && m.bus.mem[0x11] == 0 && m.bus.romStart > 0x10
    ensures EffectiveAddress(IndirectY, 0x10, m) == 0x10
    ensures Instruction(0x8000, 0xD3, DCP, IndirectY, Addr(0x10), 2).Valid()
  {
    ThroughPointer(m);
    PointerLowered(m.bus);
  }

  /** `DCP ($10),Y` with Y = 0 and the pointer at $10 naming $0010: the decrement moves the operand to $000F. */
  lemma OwnPointerFails(m: Machine)
    requires m.y == 0 && m.bus.mem[0x10] == 0x10 && m.bus.mem[0x11] == 0 && m.bus.mem[0x0F] == 0 && m.bus.romStart > 0x10
    ensures var insn := Instruction(0x8000, 0xD3, DCP, IndirectY, Addr(0x10), 2);
            insn.Valid() && EffectiveAddress(insn.mode, insn.operand.addr, m) == 0x10 && !Coherent(insn, m)
  {
    var insn := Instruction(0x8000, 0xD3, DCP, IndirectY, Addr(0x10), 2);
    OwnPointerOperand(m);
    assert EffectiveAddress(insn.mode, insn.operand.addr, m) == 0x10;
    OwnPointerMoves(m);
    assert Reread(insn, m) == 0;
    DecrementWrites(m, 0x10);
  }
}
