/**
 The shipped opcode table against the structure of the opcodes themselves: the top three
 bits, the middle three and the low two select mnemonic and addressing mode, with the
 irregular places listed.
 */
module OpcodeFields {
  import opened Bytes
  import opened Cpu6502
  import opened OpcodeTable
  import opened Isa
  import opened ByteBits
  import opened InstructionLaws

  /** The four families of two low bits, by the top three bits. */
  const ACCUMULATOR_FAMILY := [ORA, AND, EOR, ADC, STA, LDA, CMP, SBC]
  const MODIFY_FAMILY := [ASL, ROL, LSR, ROR, STX, LDX, DEC, INC]
  const COMBINED_FAMILY := [SLO, RLA, SRE, RRA, SAX, LAX, DCP, ISC]
  const CONTROL_MEMORY := [NOP, BIT, NOP, NOP, STY, LDY, CPY, CPX]

  /** The single-byte rows: stack, status and register instructions. */
  const STACK_AND_INDEX := [PHP, PLP, PHA, PLA, DEY, TAY, INY, INX]
  const FLAG_COLUMN := [CLC, SEC, CLI, SEI, TYA, CLV, CLD, SED]
  const BRANCH_COLUMN := [BPL, BMI, BVC, BVS, BCC, BCS, BNE, BEQ]
  const FIRST_COLUMN := [BRK, JSR, RTI, RTS, NOP, LDY, CPY, CPX]
  const TRANSFER_COLUMN := [TXA, TAX, DEX, NOP]

  /** The instructions that index X with Y: those of the fifth and sixth families. */
  predicate IndexesByY(top: nat) {
    top == 4 || top == 5
  }

  /** The addressing mode of a place. */
  function ModeAt(top: nat, middle: nat, low: nat): AddrMode
    requires top < 8 && middle < 8 && low < 4
  {
    match middle
    case 0 =>
      if low % 2 == 1 then IndirectX
      else if top >= 4 then Immediate
      else if low == 0 && top == 1 then Absolute
      else Implied
    case 1 => ZeroPage
    case 2 => if low % 2 == 1 then Immediate else if low == 2 && top < 4 then Accumulator else Implied
    case 3 => if low == 0 && top == 3 then Indirect else Absolute
    case 4 => if low == 0 then Relative else if low == 2 then Implied else IndirectY
    case 5 => if low >= 2 && IndexesByY(top) then ZeroPageY else ZeroPageX
    case 6 => if low % 2 == 1 then AbsoluteY else Implied
    case _ => if low >= 2 && IndexesByY(top) then AbsoluteY else AbsoluteX
  }

  /** The mnemonic of a place whose low bits are 00. */
  function ControlAt(top: nat, middle: nat): Mnemonic
    requires top < 8 && middle < 8
  {
    match middle
    case 0 => FIRST_COLUMN[top]
    case 1 => CONTROL_MEMORY[top]
    case 2 => STACK_AND_INDEX[top]
    case 3 => if top == 2 || top == 3 then JMP else CONTROL_MEMORY[top]
    case 4 => BRANCH_COLUMN[top]
    case 5 => if IndexesByY(top) then CONTROL_MEMORY[top] else NOP
    case 6 => FLAG_COLUMN[top]
    case _ => if top == 4 then SHY else if top == 5 then LDY else NOP
  }

  /** The mnemonic of a place whose low bits are 10. */
  function ModifyAt(top: nat, middle: nat): Mnemonic
    requires top < 8 && middle < 8
  {
    match middle
    case 0 => if top == 5 then LDX else if top < 4 then JAM else NOP
    case 2 => if top < 4 then MODIFY_FAMILY[top] else TRANSFER_COLUMN[top - 4]
    case 4 => JAM
    case 6 => if top == 4 then TXS else if top == 5 then TSX else NOP
    case _ => if top == 4 && middle == 7 then SHX else MODIFY_FAMILY[top]
  }

  /** The mnemonic of a place whose low bits are 11. */
  function CombinedAt(top: nat, middle: nat): Mnemonic
    requires top < 8 && middle < 8
  {
    if middle == 2 then
      (match top case 4 => ANE case 5 => LAX case 7 => SBC case _ => JAM)
    else if top == 4 && middle == 6 then TAS
    else if top == 4 && (middle == 4 || middle == 7) then AHX
    else if top == 5 && middle == 6 then LAS
    else COMBINED_FAMILY[top]
  }

  function ByFields(top: nat, middle: nat, low: nat): OpInfo
    requires top < 8 && middle < 8 && low < 4
  {
    var mnemonic :=
      match low
      case 0 => ControlAt(top, middle)
      case 1 => if top == 4 && middle == 2 then NOP else ACCUMULATOR_FAMILY[top]
      case 2 => ModifyAt(top, middle)
      case _ => CombinedAt(top, middle);
    OpInfo(mnemonic, ModeAt(top, middle, low))
  }

  lemma Row0Fields(column: nat)
    requires column < 16
    ensures Row0(column) == ByFields(0, 0 + column / 4, column % 4)
  {
  }

  lemma Row1Fields(column: nat)
    requires column < 16
    ensures Row1(column) == ByFields(0, 4 + column / 4, column % 4)
  {
  }

  lemma Row2Fields(column: nat)
    requires column < 16
    ensures Row2(column) == ByFields(1, 0 + column / 4, column % 4)
  {
  }

  lemma Row3Fields(column: nat)
    requires column < 16
    ensures Row3(column) == ByFields(1, 4 + column / 4, column % 4)
  {
  }

  lemma Row4Fields(column: nat)
    requires column < 16
    ensures Row4(column) == ByFields(2, 0 + column / 4, column % 4)
  {
  }

  lemma Row5Fields(column: nat)
    requires column < 16
    ensures Row5(column) == ByFields(2, 4 + column / 4, column % 4)
  {
  }

  lemma Row6Fields(column: nat)
    requires column < 16
    ensures Row6(column) == ByFields(3, 0 + column / 4, column % 4)
  {
  }

  lemma Row7Fields(column: nat)
    requires column < 16
    ensures Row7(column) == ByFields(3, 4 + column / 4, column % 4)
  {
  }

  lemma Row8Fields(column: nat)
    requires column < 16
    ensures Row8(column) == ByFields(4, 0 + column / 4, column % 4)
  {
  }

  lemma Row9Fields(column: nat)
    requires column < 16
    ensures Row9(column) == ByFields(4, 4 + column / 4, column % 4)
  {
  }

  lemma RowAFields(column: nat)
    requires column < 16
    ensures RowA(column) == ByFields(5, 0 + column / 4, column % 4)
  {
  }

  lemma RowBFields(column: nat)
    requires column < 16
    ensures RowB(column) == ByFields(5, 4 + column / 4, column % 4)
  {
  }

  lemma RowCFields(column: nat)
    requires column < 16
    ensures RowC(column) == ByFields(6, 0 + column / 4, column % 4)
  {
  }

  lemma RowDFields(column: nat)
    requires column < 16
    ensures RowD(column) == ByFields(6, 4 + column / 4, column % 4)
  {
  }

  lemma RowEFields(column: nat)
    requires column < 16
    ensures RowE(column) == ByFields(7, 0 + column / 4, column % 4)
  {
  }

  lemma RowFFields(column: nat)
    requires column < 16
    ensures RowF(column) == ByFields(7, 4 + column / 4, column % 4)
  {
  }

  lemma FieldsOfDigits(op: int, h: int, b: int, q: int, r: int)
    requires op == 32 * h + 16 * b + 4 * q + r && 0 <= b < 2 && 0 <= q < 4 && 0 <= r < 4
    ensures op / 32 == h && op / 4 == 8 * h + 4 * b + q && op % 4 == r
  {
  }

  lemma MiddleOfDigits(h: int, b: int, q: int)
    requires 0 <= b < 2 && 0 <= q < 4
    ensures (8 * h + 4 * b + q) % 8 == 4 * b + q
  {
  }

  lemma FieldsOf(op: Byte, row: nat, column: nat)
    requires row == op / 16 && column == op % 16
    ensures op / 32 == row / 2 && op / 4 % 8 == 4 * (row % 2) + column / 4 && op % 4 == column % 4
  {
    var h, b, q, r := row / 2, row % 2, column / 4, column % 4;
    assert op == 16 * row + column && row == 2 * h + b && column == 4 * q + r;
    FieldsOfDigits(op, h, b, q, r);
    MiddleOfDigits(h, b, q);
  }

  /** Every row of the shipped table is the one its opcode's fields select. */
  lemma ShippedByFields(op: Byte)
    ensures Shipped()[op] == ByFields(op / 32, op / 4 % 8, op % 4)
  {
    hide ByFields, Row0, Row1, Row2, Row3, Row4, Row5, Row6, Row7, Row8, Row9, RowA, RowB, RowC, RowD, RowE, RowF;
    var row, column := op / 16, op % 16;
    FieldsOf(op, row, column);
    match row
    case 0 => Row0Fields(column);
    case 1 => Row1Fields(column);
    case 2 => Row2Fields(column);
    case 3 => Row3Fields(column);
    case 4 => Row4Fields(column);
    case 5 => Row5Fields(column);
    case 6 => Row6Fields(column);
    case 7 => Row7Fields(column);
    case 8 => Row8Fields(column);
    case 9 => Row9Fields(column);
    case 10 => RowAFields(column);
    case 11 => RowBFields(column);
    case 12 => RowCFields(column);
    case 13 => RowDFields(column);
    case 14 => RowEFields(column);
    case _ => RowFFields(column);
  }

  /** The status bit each pair of branch families tests: N, V, C and Z. */
  const TESTED := [7, 6, 0, 1]

  /**
   A branch opcode is its condition: the top two bits select the status bit and the third the
   value it must have.
   */
  lemma BranchFields(op: Byte, f: Flags)
    requires op % 32 == 16
    ensures Branches(Shipped()[op].mnemonic) && Shipped()[op].mode.Relative?
    ensures Taken(Shipped()[op].mnemonic, f) <==> (BitAt(FlagsByte(f), TESTED[op / 64]) <==> op / 32 % 2 == 1)
  {
    hide BitAt, FlagsByte, ByFields, Shipped, Taken;
    var top := op / 32;
    assert op / 4 % 8 == 4 && op % 4 == 0 && op / 64 == top / 2;
    ShippedByFields(op);
    BranchColumn(top, f);
  }

  lemma BranchColumn(top: nat, f: Flags)
    requires top < 8
    ensures ByFields(top, 4, 0) == OpInfo(BRANCH_COLUMN[top], Relative) && Branches(BRANCH_COLUMN[top])
    ensures Taken(BRANCH_COLUMN[top], f) <==> (BitAt(FlagsByte(f), TESTED[top / 2]) <==> top % 2 == 1)
  {
    hide BitAt, FlagsByte;
    WantsIff(BRANCH_COLUMN[top], f);
  }
}
