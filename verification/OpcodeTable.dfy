/** The shipped 256-entry opcode table, sixteen opcodes a row. */
module OpcodeTable {
  import opened Cpu6502

  function Row0(low: int): OpInfo
    requires 0 <= low < 16
  {
    match low
    case 0 => OpInfo(BRK, Implied)
    case 1 => OpInfo(ORA, IndirectX)
    case 2 => OpInfo(JAM, Implied)
    case 3 => OpInfo(SLO, IndirectX)
    case 4 => OpInfo(NOP, ZeroPage)
    case 5 => OpInfo(ORA, ZeroPage)
    case 6 => OpInfo(ASL, ZeroPage)
    case 7 => OpInfo(SLO, ZeroPage)
    case 8 => OpInfo(PHP, Implied)
    case 9 => OpInfo(ORA, Immediate)
    case 10 => OpInfo(ASL, Accumulator)
    case 11 => OpInfo(JAM, Immediate)
    case 12 => OpInfo(NOP, Absolute)
    case 13 => OpInfo(ORA, Absolute)
    case 14 => OpInfo(ASL, Absolute)
    case _ => OpInfo(SLO, Absolute)
  }

  lemma Row0Ok(low: int)
    requires 0 <= low < 16
    ensures WellFormedRow(0 + low, Row0(low))
  {
  }

  function Row1(low: int): OpInfo
    requires 0 <= low < 16
  {
    match low
    case 0 => OpInfo(BPL, Relative)
    case 1 => OpInfo(ORA, IndirectY)
    case 2 => OpInfo(JAM, Implied)
    case 3 => OpInfo(SLO, IndirectY)
    case 4 => OpInfo(NOP, ZeroPageX)
    case 5 => OpInfo(ORA, ZeroPageX)
    case 6 => OpInfo(ASL, ZeroPageX)
    case 7 => OpInfo(SLO, ZeroPageX)
    case 8 => OpInfo(CLC, Implied)
    case 9 => OpInfo(ORA, AbsoluteY)
    case 10 => OpInfo(NOP, Implied)
    case 11 => OpInfo(SLO, AbsoluteY)
    case 12 => OpInfo(NOP, AbsoluteX)
    case 13 => OpInfo(ORA, AbsoluteX)
    case 14 => OpInfo(ASL, AbsoluteX)
    case _ => OpInfo(SLO, AbsoluteX)
  }

  lemma Row1Ok(low: int)
    requires 0 <= low < 16
    ensures WellFormedRow(16 + low, Row1(low))
  {
  }

  function Row2(low: int): OpInfo
    requires 0 <= low < 16
  {
    match low
    case 0 => OpInfo(JSR, Absolute)
    case 1 => OpInfo(AND, IndirectX)
    case 2 => OpInfo(JAM, Implied)
    case 3 => OpInfo(RLA, IndirectX)
    case 4 => OpInfo(BIT, ZeroPage)
    case 5 => OpInfo(AND, ZeroPage)
    case 6 => OpInfo(ROL, ZeroPage)
    case 7 => OpInfo(RLA, ZeroPage)
    case 8 => OpInfo(PLP, Implied)
    case 9 => OpInfo(AND, Immediate)
    case 10 => OpInfo(ROL, Accumulator)
    case 11 => OpInfo(JAM, Immediate)
    case 12 => OpInfo(BIT, Absolute)
    case 13 => OpInfo(AND, Absolute)
    case 14 => OpInfo(ROL, Absolute)
    case _ => OpInfo(RLA, Absolute)
  }

  lemma Row2Ok(low: int)
    requires 0 <= low < 16
    ensures WellFormedRow(32 + low, Row2(low))
  {
  }

  function Row3(low: int): OpInfo
    requires 0 <= low < 16
  {
    match low
    case 0 => OpInfo(BMI, Relative)
    case 1 => OpInfo(AND, IndirectY)
    case 2 => OpInfo(JAM, Implied)
    case 3 => OpInfo(RLA, IndirectY)
    case 4 => OpInfo(NOP, ZeroPageX)
    case 5 => OpInfo(AND, ZeroPageX)
    case 6 => OpInfo(ROL, ZeroPageX)
    case 7 => OpInfo(RLA, ZeroPageX)
    case 8 => OpInfo(SEC, Implied)
    case 9 => OpInfo(AND, AbsoluteY)
    case 10 => OpInfo(NOP, Implied)
    case 11 => OpInfo(RLA, AbsoluteY)
    case 12 => OpInfo(NOP, AbsoluteX)
    case 13 => OpInfo(AND, AbsoluteX)
    case 14 => OpInfo(ROL, AbsoluteX)
    case _ => OpInfo(RLA, AbsoluteX)
  }

  lemma Row3Ok(low: int)
    requires 0 <= low < 16
    ensures WellFormedRow(48 + low, Row3(low))
  {
  }

  function Row4(low: int): OpInfo
    requires 0 <= low < 16
  {
    match low
    case 0 => OpInfo(RTI, Implied)
    case 1 => OpInfo(EOR, IndirectX)
    case 2 => OpInfo(JAM, Implied)
    case 3 => OpInfo(SRE, IndirectX)
    case 4 => OpInfo(NOP, ZeroPage)
    case 5 => OpInfo(EOR, ZeroPage)
    case 6 => OpInfo(LSR, ZeroPage)
    case 7 => OpInfo(SRE, ZeroPage)
    case 8 => OpInfo(PHA, Implied)
    case 9 => OpInfo(EOR, Immediate)
    case 10 => OpInfo(LSR, Accumulator)
    case 11 => OpInfo(JAM, Immediate)
    case 12 => OpInfo(JMP, Absolute)
    case 13 => OpInfo(EOR, Absolute)
    case 14 => OpInfo(LSR, Absolute)
    case _ => OpInfo(SRE, Absolute)
  }

  lemma Row4Ok(low: int)
    requires 0 <= low < 16
    ensures WellFormedRow(64 + low, Row4(low))
  {
  }

  function Row5(low: int): OpInfo
    requires 0 <= low < 16
  {
    match low
    case 0 => OpInfo(BVC, Relative)
    case 1 => OpInfo(EOR, IndirectY)
    case 2 => OpInfo(JAM, Implied)
    case 3 => OpInfo(SRE, IndirectY)
    case 4 => OpInfo(NOP, ZeroPageX)
    case 5 => OpInfo(EOR, ZeroPageX)
    case 6 => OpInfo(LSR, ZeroPageX)
    case 7 => OpInfo(SRE, ZeroPageX)
    case 8 => OpInfo(CLI, Implied)
    case 9 => OpInfo(EOR, AbsoluteY)
    case 10 => OpInfo(NOP, Implied)
    case 11 => OpInfo(SRE, AbsoluteY)
    case 12 => OpInfo(NOP, AbsoluteX)
    case 13 => OpInfo(EOR, AbsoluteX)
    case 14 => OpInfo(LSR, AbsoluteX)
    case _ => OpInfo(SRE, AbsoluteX)
  }

  lemma Row5Ok(low: int)
    requires 0 <= low < 16
    ensures WellFormedRow(80 + low, Row5(low))
  {
  }

  function Row6(low: int): OpInfo
    requires 0 <= low < 16
  {
    match low
    case 0 => OpInfo(RTS, Implied)
    case 1 => OpInfo(ADC, IndirectX)
    case 2 => OpInfo(JAM, Implied)
    case 3 => OpInfo(RRA, IndirectX)
    case 4 => OpInfo(NOP, ZeroPage)
    case 5 => OpInfo(ADC, ZeroPage)
    case 6 => OpInfo(ROR, ZeroPage)
    case 7 => OpInfo(RRA, ZeroPage)
    case 8 => OpInfo(PLA, Implied)
    case 9 => OpInfo(ADC, Immediate)
    case 10 => OpInfo(ROR, Accumulator)
    case 11 => OpInfo(JAM, Immediate)
    case 12 => OpInfo(JMP, Indirect)
    case 13 => OpInfo(ADC, Absolute)
    case 14 => OpInfo(ROR, Absolute)
    case _ => OpInfo(RRA, Absolute)
  }

  lemma Row6Ok(low: int)
    requires 0 <= low < 16
    ensures WellFormedRow(96 + low, Row6(low))
  {
  }

  function Row7(low: int): OpInfo
    requires 0 <= low < 16
  {
    match low
    case 0 => OpInfo(BVS, Relative)
    case 1 => OpInfo(ADC, IndirectY)
    case 2 => OpInfo(JAM, Implied)
    case 3 => OpInfo(RRA, IndirectY)
    case 4 => OpInfo(NOP, ZeroPageX)
    case 5 => OpInfo(ADC, ZeroPageX)
    case 6 => OpInfo(ROR, ZeroPageX)
    case 7 => OpInfo(RRA, ZeroPageX)
    case 8 => OpInfo(SEI, Implied)
    case 9 => OpInfo(ADC, AbsoluteY)
    case 10 => OpInfo(NOP, Implied)
    case 11 => OpInfo(RRA, AbsoluteY)
    case 12 => OpInfo(NOP, AbsoluteX)
    case 13 => OpInfo(ADC, AbsoluteX)
    case 14 => OpInfo(ROR, AbsoluteX)
    case _ => OpInfo(RRA, AbsoluteX)
  }

  lemma Row7Ok(low: int)
    requires 0 <= low < 16
    ensures WellFormedRow(112 + low, Row7(low))
  {
  }

  function Row8(low: int): OpInfo
    requires 0 <= low < 16
  {
    match low
    case 0 => OpInfo(NOP, Immediate)
    case 1 => OpInfo(STA, IndirectX)
    case 2 => OpInfo(NOP, Immediate)
    case 3 => OpInfo(SAX, IndirectX)
    case 4 => OpInfo(STY, ZeroPage)
    case 5 => OpInfo(STA, ZeroPage)
    case 6 => OpInfo(STX, ZeroPage)
    case 7 => OpInfo(SAX, ZeroPage)
    case 8 => OpInfo(DEY, Implied)
    case 9 => OpInfo(NOP, Immediate)
    case 10 => OpInfo(TXA, Implied)
    case 11 => OpInfo(ANE, Immediate)
    case 12 => OpInfo(STY, Absolute)
    case 13 => OpInfo(STA, Absolute)
    case 14 => OpInfo(STX, Absolute)
    case _ => OpInfo(SAX, Absolute)
  }

  lemma Row8Ok(low: int)
    requires 0 <= low < 16
    ensures WellFormedRow(128 + low, Row8(low))
  {
  }

  function Row9(low: int): OpInfo
    requires 0 <= low < 16
  {
    match low
    case 0 => OpInfo(BCC, Relative)
    case 1 => OpInfo(STA, IndirectY)
    case 2 => OpInfo(JAM, Implied)
    case 3 => OpInfo(AHX, IndirectY)
    case 4 => OpInfo(STY, ZeroPageX)
    case 5 => OpInfo(STA, ZeroPageX)
    case 6 => OpInfo(STX, ZeroPageY)
    case 7 => OpInfo(SAX, ZeroPageY)
    case 8 => OpInfo(TYA, Implied)
    case 9 => OpInfo(STA, AbsoluteY)
    case 10 => OpInfo(TXS, Implied)
    case 11 => OpInfo(TAS, AbsoluteY)
    case 12 => OpInfo(SHY, AbsoluteX)
    case 13 => OpInfo(STA, AbsoluteX)
    case 14 => OpInfo(SHX, AbsoluteY)
    case _ => OpInfo(AHX, AbsoluteY)
  }

  lemma Row9Ok(low: int)
    requires 0 <= low < 16
    ensures WellFormedRow(144 + low, Row9(low))
  {
  }

  function RowA(low: int): OpInfo
    requires 0 <= low < 16
  {
    match low
    case 0 => OpInfo(LDY, Immediate)
    case 1 => OpInfo(LDA, IndirectX)
    case 2 => OpInfo(LDX, Immediate)
    case 3 => OpInfo(LAX, IndirectX)
    case 4 => OpInfo(LDY, ZeroPage)
    case 5 => OpInfo(LDA, ZeroPage)
    case 6 => OpInfo(LDX, ZeroPage)
    case 7 => OpInfo(LAX, ZeroPage)
    case 8 => OpInfo(TAY, Implied)
    case 9 => OpInfo(LDA, Immediate)
    case 10 => OpInfo(TAX, Implied)
    case 11 => OpInfo(LAX, Immediate)
    case 12 => OpInfo(LDY, Absolute)
    case 13 => OpInfo(LDA, Absolute)
    case 14 => OpInfo(LDX, Absolute)
    case _ => OpInfo(LAX, Absolute)
  }

  lemma RowAOk(low: int)
    requires 0 <= low < 16
    ensures WellFormedRow(160 + low, RowA(low))
  {
  }

  function RowB(low: int): OpInfo
    requires 0 <= low < 16
  {
    match low
    case 0 => OpInfo(BCS, Relative)
    case 1 => OpInfo(LDA, IndirectY)
    case 2 => OpInfo(JAM, Implied)
    case 3 => OpInfo(LAX, IndirectY)
    case 4 => OpInfo(LDY, ZeroPageX)
    case 5 => OpInfo(LDA, ZeroPageX)
    case 6 => OpInfo(LDX, ZeroPageY)
    case 7 => OpInfo(LAX, ZeroPageY)
    case 8 => OpInfo(CLV, Implied)
    case 9 => OpInfo(LDA, AbsoluteY)
    case 10 => OpInfo(TSX, Implied)
    case 11 => OpInfo(LAS, AbsoluteY)
    case 12 => OpInfo(LDY, AbsoluteX)
    case 13 => OpInfo(LDA, AbsoluteX)
    case 14 => OpInfo(LDX, AbsoluteY)
    case _ => OpInfo(LAX, AbsoluteY)
  }

  lemma RowBOk(low: int)
    requires 0 <= low < 16
    ensures WellFormedRow(176 + low, RowB(low))
  {
  }

  function RowC(low: int): OpInfo
    requires 0 <= low < 16
  {
    match low
    case 0 => OpInfo(CPY, Immediate)
    case 1 => OpInfo(CMP, IndirectX)
    case 2 => OpInfo(NOP, Immediate)
    case 3 => OpInfo(DCP, IndirectX)
    case 4 => OpInfo(CPY, ZeroPage)
    case 5 => OpInfo(CMP, ZeroPage)
    case 6 => OpInfo(DEC, ZeroPage)
    case 7 => OpInfo(DCP, ZeroPage)
    case 8 => OpInfo(INY, Implied)
    case 9 => OpInfo(CMP, Immediate)
    case 10 => OpInfo(DEX, Implied)
    case 11 => OpInfo(JAM, Immediate)
    case 12 => OpInfo(CPY, Absolute)
    case 13 => OpInfo(CMP, Absolute)
    case 14 => OpInfo(DEC, Absolute)
    case _ => OpInfo(DCP, Absolute)
  }

  lemma RowCOk(low: int)
    requires 0 <= low < 16
    ensures WellFormedRow(192 + low, RowC(low))
  {
  }

  function RowD(low: int): OpInfo
    requires 0 <= low < 16
  {
    match low
    case 0 => OpInfo(BNE, Relative)
    case 1 => OpInfo(CMP, IndirectY)
    case 2 => OpInfo(JAM, Implied)
    case 3 => OpInfo(DCP, IndirectY)
    case 4 => OpInfo(NOP, ZeroPageX)
    case 5 => OpInfo(CMP, ZeroPageX)
    case 6 => OpInfo(DEC, ZeroPageX)
    case 7 => OpInfo(DCP, ZeroPageX)
    case 8 => OpInfo(CLD, Implied)
    case 9 => OpInfo(CMP, AbsoluteY)
    case 10 => OpInfo(NOP, Implied)
    case 11 => OpInfo(DCP, AbsoluteY)
    case 12 => OpInfo(NOP, AbsoluteX)
    case 13 => OpInfo(CMP, AbsoluteX)
    case 14 => OpInfo(DEC, AbsoluteX)
    case _ => OpInfo(DCP, AbsoluteX)
  }

  lemma RowDOk(low: int)
    requires 0 <= low < 16
    ensures WellFormedRow(208 + low, RowD(low))
  {
  }

  function RowE(low: int): OpInfo
    requires 0 <= low < 16
  {
    match low
    case 0 => OpInfo(CPX, Immediate)
    case 1 => OpInfo(SBC, IndirectX)
    case 2 => OpInfo(NOP, Immediate)
    case 3 => OpInfo(ISC, IndirectX)
    case 4 => OpInfo(CPX, ZeroPage)
    case 5 => OpInfo(SBC, ZeroPage)
    case 6 => OpInfo(INC, ZeroPage)
    case 7 => OpInfo(ISC, ZeroPage)
    case 8 => OpInfo(INX, Implied)
    case 9 => OpInfo(SBC, Immediate)
    case 10 => OpInfo(NOP, Implied)
    case 11 => OpInfo(SBC, Immediate)
    case 12 => OpInfo(CPX, Absolute)
    case 13 => OpInfo(SBC, Absolute)
    case 14 => OpInfo(INC, Absolute)
    case _ => OpInfo(ISC, Absolute)
  }

  lemma RowEOk(low: int)
    requires 0 <= low < 16
    ensures WellFormedRow(224 + low, RowE(low))
  {
  }

  function RowF(low: int): OpInfo
    requires 0 <= low < 16
  {
    match low
    case 0 => OpInfo(BEQ, Relative)
    case 1 => OpInfo(SBC, IndirectY)
    case 2 => OpInfo(JAM, Implied)
    case 3 => OpInfo(ISC, IndirectY)
    case 4 => OpInfo(NOP, ZeroPageX)
    case 5 => OpInfo(SBC, ZeroPageX)
    case 6 => OpInfo(INC, ZeroPageX)
    case 7 => OpInfo(ISC, ZeroPageX)
    case 8 => OpInfo(SED, Implied)
    case 9 => OpInfo(SBC, AbsoluteY)
    case 10 => OpInfo(NOP, Implied)
    case 11 => OpInfo(ISC, AbsoluteY)
    case 12 => OpInfo(NOP, AbsoluteX)
    case 13 => OpInfo(SBC, AbsoluteX)
    case 14 => OpInfo(INC, AbsoluteX)
    case _ => OpInfo(ISC, AbsoluteX)
  }

  lemma RowFOk(low: int)
    requires 0 <= low < 16
    ensures WellFormedRow(240 + low, RowF(low))
  {
  }

  function Lookup(op: int): OpInfo
    requires 0 <= op < 256
  {
    match op / 16
    case 0 => Row0(op % 16)
    case 1 => Row1(op % 16)
    case 2 => Row2(op % 16)
    case 3 => Row3(op % 16)
    case 4 => Row4(op % 16)
    case 5 => Row5(op % 16)
    case 6 => Row6(op % 16)
    case 7 => Row7(op % 16)
    case 8 => Row8(op % 16)
    case 9 => Row9(op % 16)
    case 10 => RowA(op % 16)
    case 11 => RowB(op % 16)
    case 12 => RowC(op % 16)
    case 13 => RowD(op % 16)
    case 14 => RowE(op % 16)
    case _ => RowF(op % 16)
  }

  lemma LookupOk(op: int)
    requires 0 <= op < 256
    ensures WellFormedRow(op, Lookup(op))
  {
    match op / 16
    case 0 => Row0Ok(op % 16);
    case 1 => Row1Ok(op % 16);
    case 2 => Row2Ok(op % 16);
    case 3 => Row3Ok(op % 16);
    case 4 => Row4Ok(op % 16);
    case 5 => Row5Ok(op % 16);
    case 6 => Row6Ok(op % 16);
    case 7 => Row7Ok(op % 16);
    case 8 => Row8Ok(op % 16);
    case 9 => Row9Ok(op % 16);
    case 10 => RowAOk(op % 16);
    case 11 => RowBOk(op % 16);
    case 12 => RowCOk(op % 16);
    case 13 => RowDOk(op % 16);
    case 14 => RowEOk(op % 16);
    case _ => RowFOk(op % 16);
  }

  function Shipped(): Table {
    seq(256, op requires 0 <= op < 256 => Lookup(op))
  }

  /** Everything proved for well-formed tables holds for the shipped one. */
  lemma ShippedIsWellFormed()
    ensures WellFormedTable(Shipped())
  {
    forall op | 0 <= op < 256
      ensures WellFormedRow(op, Shipped()[op])
    {
      LookupOk(op);
    }
  }
}
