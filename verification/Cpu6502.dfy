/**
 The 6502 instruction decoder. The decoder is stated for an arbitrary opcode
 table; module OpcodeTable holds the shipped 256 rows and proves that they meet
 `WellFormedTable`.
 */
module Cpu6502 {
  import opened Bytes

  datatype AddrMode =
    | Implied | Accumulator | Immediate
    | ZeroPage | ZeroPageX | ZeroPageY
    | Absolute | AbsoluteX | AbsoluteY
    | Indirect | IndirectX | IndirectY | Relative

  datatype Mnemonic =
    | LDA | LDX | LDY | STA | STX | STY
    | TAX | TAY | TXA | TYA | TSX | TXS
    | PHA | PHP | PLA | PLP
    | AND | ORA | EOR | BIT
    | ADC | SBC | CMP | CPX | CPY
    | ASL | LSR | ROL | ROR
    | INC | INX | INY | DEC | DEX | DEY
    | BCC | BCS | BEQ | BNE | BMI | BPL | BVC | BVS
    | JMP | JSR | RTS | RTI
    | CLC | SEC | CLI | SEI | CLV | CLD | SED
    | NOP | BRK
    | LAX | SAX | DCP | ISC | SLO | RLA | SRE | RRA
    | XAA | AHX | TAS | LAS | SHX | SHY | ANE
    | JAM

  datatype Operand = NoOperand | Imm(value: Byte) | Addr(addr: Address) | Rel(offset: Byte)

  datatype OpInfo = OpInfo(mnemonic: Mnemonic, mode: AddrMode)

  datatype Instruction = Instruction(
    pc: Address, opcode: int, mnemonic: Mnemonic, mode: AddrMode, operand: Operand, size: int)
  {
    predicate IsBranch() {
      Branches(mnemonic)
    }

    predicate IsTerminator() {
      mnemonic.RTS? || mnemonic.RTI? || mnemonic.JMP? || mnemonic.BRK? || mnemonic.JAM?
    }

    /** Static target of a branch, an absolute jump or a call. */
    function BranchTarget(): Option<Address> {
      if (mnemonic.JMP? || mnemonic.JSR?) && mode == Absolute && operand.Addr? then
        Some(operand.addr)
      else if IsBranch() && mode == Relative && operand.Rel? then
        Some(WrapAddress(pc + size + Signed(operand.offset)))
      else
        None
    }

    /** What the decoder guarantees about mode, operand and size. */
    predicate Valid() {
      && ModeAllowed(mnemonic, mode)
      && OperandMatches(mode, operand)
      && size == 1 + OperandBytes(mode)
      && (Unstable(mnemonic) ==> UnstableOpcode(opcode))
      && (UnstableOpcode(opcode) ==> Unstable(mnemonic) || mnemonic == JAM)
    }
  }

  function OperandBytes(mode: AddrMode): int {
    match mode
    case Implied | Accumulator => 0
    case Immediate | ZeroPage | ZeroPageX | ZeroPageY | IndirectX | IndirectY | Relative => 1
    case Absolute | AbsoluteX | AbsoluteY | Indirect => 2
  }

  predicate MemoryMode(mode: AddrMode) {
    mode.ZeroPage? || mode.ZeroPageX? || mode.ZeroPageY? || mode.Absolute? || mode.AbsoluteX? || mode.AbsoluteY? || mode.IndirectX? || mode.IndirectY?
  }

  predicate OperandMatches(mode: AddrMode, operand: Operand) {
    match mode
    case Implied | Accumulator => operand.NoOperand?
    case Immediate => operand.Imm?
    case ZeroPage | ZeroPageX | ZeroPageY | IndirectX | IndirectY => operand.Addr? && operand.addr < 256
    case Absolute | AbsoluteX | AbsoluteY | Indirect => operand.Addr?
    case Relative => operand.Rel?
  }

  /** Mnemonics the decoder names only so that later stages can refuse them. */
  predicate Unstable(m: Mnemonic) {
    m.XAA? || m.AHX? || m.TAS? || m.LAS? || m.SHX? || m.SHY? || m.ANE?
  }

  /** The opcodes the oracle refuses to execute. */
  predicate UnstableOpcode(opcode: int) {
    opcode == 0x0B || opcode == 0x2B || opcode == 0x4B || opcode == 0x6B || opcode == 0x8B || opcode == 0x93 || opcode == 0x9F || opcode == 0x9B || opcode == 0x9C || opcode == 0x9E || opcode == 0xBB || opcode == 0xCB
  }

  predicate ReadsOperand(m: Mnemonic) {
    || m.LDA? || m.LDX? || m.LDY? || m.LAX? || m.AND? || m.ORA? || m.EOR?
    || m.ADC? || m.SBC? || m.CMP? || m.CPX? || m.CPY?
  }

  predicate AlwaysMemory(m: Mnemonic) {
    || m.STA? || m.STX? || m.STY? || m.SAX? || m.INC? || m.DEC? || m.BIT?
    || m.DCP? || m.ISC? || m.SLO? || m.RLA? || m.SRE? || m.RRA?
  }

  predicate IsShift(m: Mnemonic) {
    m.ASL? || m.LSR? || m.ROL? || m.ROR?
  }

  predicate Branches(m: Mnemonic) {
    m.BCC? || m.BCS? || m.BEQ? || m.BNE? || m.BMI? || m.BPL? || m.BVC? || m.BVS?
  }

  /** The addressing modes the table pairs with each mnemonic. */
  predicate ModeAllowed(m: Mnemonic, mode: AddrMode) {
    && (ReadsOperand(m) ==> mode.Immediate? || MemoryMode(mode))
    && (AlwaysMemory(m) ==> MemoryMode(mode))
    && (IsShift(m) ==> mode.Accumulator? || MemoryMode(mode))
    && (m.NOP? ==> mode.Implied? || mode.Immediate? || MemoryMode(mode))
    && (Branches(m) <==> mode.Relative?)
    && (m.JMP? ==> mode.Absolute? || mode.Indirect?)
    && (m.JSR? ==> mode.Absolute?)
    && (m.JAM? ==> mode.Implied? || mode.Immediate?)
    && (mode.Implied? || mode.Relative? || mode.Indirect? || mode.Accumulator? ||
        ReadsOperand(m) || AlwaysMemory(m) || IsShift(m) || m.NOP? || m.JMP? || m.JSR? || m.JAM? || Unstable(m))
    && (mode.Indirect? ==> m.JMP?)
    && (mode.Accumulator? ==> IsShift(m))
  }

  predicate WellFormedRow(opcode: int, row: OpInfo) {
    && ModeAllowed(row.mnemonic, row.mode)
    && (Unstable(row.mnemonic) ==> UnstableOpcode(opcode))
    && (UnstableOpcode(opcode) ==> Unstable(row.mnemonic) || row.mnemonic == JAM)
  }

  ghost predicate WellFormedTable(table: seq<OpInfo>) {
    |table| == 256 && forall op :: 0 <= op < 256 ==> WellFormedRow(op, table[op])
  }

  type Table = t: seq<OpInfo> | |t| == 256 witness seq(256, _ => OpInfo(NOP, Implied))

  /** `decode_at`: `None` is the truncated-operand error. */
  function DecodeAt(table: Table, bytes: seq<Byte>, pc: Address, offset: nat): (r: Option<Instruction>)
    ensures r.Some? ==>
              && r.value.pc == pc
              && 1 <= r.value.size <= 3
              && offset + r.value.size <= |bytes|
    ensures r.None? <==> offset >= |bytes| || offset + 1 + OperandBytes(table[bytes[offset]].mode) > |bytes|
  {
    if offset >= |bytes| then None else
    var opcode := bytes[offset];
    var info := table[opcode];
    var operandBytes := OperandBytes(info.mode);
    if offset + 1 + operandBytes > |bytes| then None else
    var operand :=
      match info.mode
      case Implied | Accumulator => NoOperand
      case Immediate => Imm(bytes[offset + 1])
      case ZeroPage | ZeroPageX | ZeroPageY | IndirectX | IndirectY => Addr(bytes[offset + 1])
      case Absolute | AbsoluteX | AbsoluteY | Indirect => Addr(Word(bytes[offset + 1], bytes[offset + 2]))
      case Relative => Rel(bytes[offset + 1]);
    Some(Instruction(pc, opcode, info.mnemonic, info.mode, operand, 1 + operandBytes))
  }

  /** The instruction's bytes in memory. */
  function InsnBytes(opcode: Byte, mode: AddrMode, operand: Operand): seq<Byte> {
    [opcode] +
    match operand
    case NoOperand => []
    case Imm(v) => [v]
    case Rel(d) => [d]
    case Addr(a) => if OperandBytes(mode) == 2 then [Low(a), High(a)] else [Low(a)]
  }

  /**
   Decoding fails exactly when the opcode or an operand byte is missing, and otherwise loses
   nothing: the instruction's row is its opcode's, and its bytes are the ones decoded.
   */
  lemma DecodedBytes(table: Table, bytes: seq<Byte>, pc: Address, offset: nat)
    ensures DecodeAt(table, bytes, pc, offset).None?
            <==> offset >= |bytes| || offset + 1 + OperandBytes(table[bytes[offset]].mode) > |bytes|
    ensures DecodeAt(table, bytes, pc, offset).Some? ==>
            var insn := DecodeAt(table, bytes, pc, offset).value;
            && insn.pc == pc && 0 <= insn.opcode < 256 && table[insn.opcode] == OpInfo(insn.mnemonic, insn.mode)
            && InsnBytes(insn.opcode, insn.mode, insn.operand) == bytes[offset..offset + insn.size]
  {
  }

  /** Laying an instruction of the table out in memory and decoding it gives the instruction back. */
  lemma DecodesBack(table: Table, insn: Instruction)
    requires 0 <= insn.opcode < 256 && table[insn.opcode] == OpInfo(insn.mnemonic, insn.mode)
    requires OperandMatches(insn.mode, insn.operand) && insn.size == 1 + OperandBytes(insn.mode)
    ensures DecodeAt(table, InsnBytes(insn.opcode, insn.mode, insn.operand), insn.pc, 0) == Some(insn)
  {
  }

  lemma DecodedIsValid(table: Table, bytes: seq<Byte>, pc: Address, offset: nat)
    requires WellFormedTable(table)
    requires DecodeAt(table, bytes, pc, offset).Some?
    ensures DecodeAt(table, bytes, pc, offset).value.Valid()
  {
    var op := bytes[offset];
    assert WellFormedRow(op, table[op]);
  }

  /** Decoding looks only at the bytes of the instruction itself. */
  lemma DecodeLocal(table: Table, bytes: seq<Byte>, raw: seq<Byte>, pc: Address, offset: nat)
    requires DecodeAt(table, bytes, pc, offset).Some?
    requires |raw| == 3
    requires forall k :: 0 <= k < 3 && offset + k < |bytes| ==> raw[k] == bytes[offset + k]
    ensures DecodeAt(table, raw, pc, 0) == DecodeAt(table, bytes, pc, offset)
  {
    assert raw[0] == bytes[offset + 0];
    if offset + 1 < |bytes| { assert raw[1] == bytes[offset + 1]; }
    if offset + 2 < |bytes| { assert raw[2] == bytes[offset + 2]; }
  }
}
