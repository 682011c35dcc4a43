/** What a decoded fragment instruction means to the 6502 interpreter running the shipped opcode table. */
module FragmentSource {
  import opened Bytes
  import opened Cpu6502
  import opened OpcodeTable
  import opened OpcodeFields
  import Isa
  import opened FragmentCompiler

  function Mnemonic6502(op: DecodedOp): Mnemonic {
    match op
    case LdaImm(_) | LdaZp(_) => LDA
    case Clc => CLC
    case AdcImm(_) => ADC
    case StaZp(_) => STA
    case CmpImm(_) => CMP
    case Bne(_) => BNE
    case Bcs(_) => BCS
    case Bcc(_) => BCC
    case Rts => RTS
  }

  function Mode6502(op: DecodedOp): AddrMode {
    match op
    case LdaImm(_) | AdcImm(_) | CmpImm(_) => Immediate
    case LdaZp(_) | StaZp(_) => ZeroPage
    case Clc | Rts => Implied
    case Bne(_) | Bcs(_) | Bcc(_) => Relative
  }

  /** The decoder's instruction says what the fragment decoder read. */
  predicate Denotes(insn: Instruction, d: Decoded) {
    && insn.pc == d.pc && insn.size == d.op.Size()
    && insn.mnemonic == Mnemonic6502(d.op) && insn.mode == Mode6502(d.op)
    && (d.op.LdaImm? || d.op.AdcImm? || d.op.CmpImm? ==> insn.operand == Imm(d.op.value))
    && (d.op.LdaZp? || d.op.StaZp? ==> insn.operand == Addr(d.op.addr))
    && (d.op.IsBranch() ==> insn.operand.Rel? && d.op.target == WrapAddress(d.pc + 2 + Signed(insn.operand.offset)))
  }

  lemma SupportedRows()
    ensures Shipped()[0xA9] == OpInfo(LDA, Immediate) && Shipped()[0xA5] == OpInfo(LDA, ZeroPage)
    ensures Shipped()[0x18] == OpInfo(CLC, Implied) && Shipped()[0x69] == OpInfo(ADC, Immediate)
    ensures Shipped()[0x85] == OpInfo(STA, ZeroPage) && Shipped()[0xC9] == OpInfo(CMP, Immediate)
    ensures Shipped()[0xD0] == OpInfo(BNE, Relative) && Shipped()[0xB0] == OpInfo(BCS, Relative)
    ensures Shipped()[0x90] == OpInfo(BCC, Relative) && Shipped()[0x60] == OpInfo(RTS, Implied)
  {
    assert Lookup(0xA9) == RowA(9) && Lookup(0xA5) == RowA(5) && Lookup(0x18) == Row1(8) && Lookup(0x69) == Row6(9);
    assert Lookup(0x85) == Row8(5) && Lookup(0xC9) == RowC(9) && Lookup(0xD0) == RowD(0) && Lookup(0xB0) == RowB(0);
    assert Lookup(0x90) == Row9(0) && Lookup(0x60) == Row6(0);
  }

  /** The rows the fragment decoder supports: three immediates, two zero-page accesses, three branches, CLC and RTS. */
  predicate SupportedRow(row: OpInfo) {
    || (row.mode.Immediate? && (row.mnemonic.LDA? || row.mnemonic.ADC? || row.mnemonic.CMP?))
    || (row.mode.ZeroPage? && (row.mnemonic.LDA? || row.mnemonic.STA?))
    || row.mnemonic.BNE? || row.mnemonic.BCS? || row.mnemonic.BCC? || row.mnemonic.CLC? || row.mnemonic.RTS?
  }

  /** Each has one opcode. */
  lemma RowsOfFields(top: nat, middle: nat, low: nat)
    requires top < 8 && middle < 8 && low < 4
    ensures var op := 32 * top + 4 * middle + low;
            SupportedRow(ByFields(top, middle, low)) <==>
              op in {0xA9, 0x69, 0xC9, 0xA5, 0x85, 0xD0, 0xB0, 0x90, 0x18, 0x60}
  {
  }

  lemma OpcodeOfFields(opcode: Byte)
    ensures opcode == 32 * (opcode / 32) + 4 * (opcode / 4 % 8) + opcode % 4
  {
    assert opcode / 4 / 8 == opcode / 32;
  }

  /** The fragment decoder supports exactly the opcodes of those rows, with their sizes. */
  lemma SupportedIff(opcode: Byte)
    ensures OpcodeSize(opcode) > 0 <==> SupportedRow(Shipped()[opcode])
    ensures OpcodeSize(opcode) > 0 ==> OpcodeSize(opcode) == 1 + OperandBytes(Shipped()[opcode].mode)
  {
    hide ByFields;
    ShippedByFields(opcode);
    OpcodeOfFields(opcode);
    RowsOfFields(opcode / 32, opcode / 4 % 8, opcode % 4);
    SupportedRows();
  }

  /** The fragment decoder agrees with the shared decoder on every opcode it supports. */
  lemma DecodersAgree(bytes: seq<Byte>, start: Address, offset: nat)
    requires offset < |bytes| && start + |bytes| < 0x1_0000 && DecodeOne(bytes, start, offset).Ok?
    ensures var r := DecodeAt(Shipped(), bytes, start + offset, offset);
            r.Some? && Denotes(r.value, DecodeOne(bytes, start, offset).value)
  {
    SupportedRows();
  }

  ghost predicate CodeIn(bytes: seq<Byte>, start: Address, bus: Isa.Bus) {
    && start + |bytes| < 0x1_0000
    && forall i :: 0 <= i < |bytes| ==> bus.mem[start + i] == bytes[i]
  }

  lemma CurrentDenotes(bytes: seq<Byte>, start: Address, s: Isa.Cpu, d: Decoded)
    requires CodeIn(bytes, start, s.m.bus) && s.pc == d.pc && 0 <= d.pc - start < |bytes|
    requires DecodeOne(bytes, start, d.pc - start) == Ok(d)
    ensures Isa.Current(Shipped(), s).Valid() && Denotes(Isa.Current(Shipped(), s), d)
  {
    var offset := d.pc - start;
    var raw := Isa.Fetch(s.m.bus, s.pc);
    DecodersAgree(bytes, start, offset);
    forall k | 0 <= k < 3 && offset + k < |bytes|
      ensures raw[k] == bytes[offset + k]
    {
      assert s.m.bus.mem[start + (offset + k)] == bytes[offset + k];
    }
    DecodeLocal(Shipped(), bytes, raw, s.pc, offset);
    ShippedIsWellFormed();
    DecodedIsValid(Shipped(), raw, s.pc, 0);
  }

  predicate Taken(op: DecodedOp, f: Isa.Flags)
    requires op.IsBranch()
  {
    match op
    case Bne(_) => !f.z
    case Bcs(_) => f.c
    case Bcc(_) => !f.c
  }

  /** The effect of one instruction whose successor in memory is `next`. */
  function Meaning(op: DecodedOp, m: Isa.Machine, next: Address): Isa.Cpu {
    match op
    case LdaImm(v) => Isa.Cpu(next, m.LoadA(v))
    case LdaZp(zp) => Isa.Cpu(next, m.LoadA(m.bus.Read(zp)))
    case Clc => Isa.Cpu(next, m.(f := m.f.(c := false)))
    case AdcImm(v) => Isa.Cpu(next, m.Adc(v))
    case StaZp(zp) => Isa.Cpu(next, m.Store(zp, m.a))
    case CmpImm(v) => Isa.Cpu(next, m.Compare(m.a, v))
    case Bne(t) => Isa.Cpu(if Taken(op, m.f) then t else next, m)
    case Bcs(t) => Isa.Cpu(if Taken(op, m.f) then t else next, m)
    case Bcc(t) => Isa.Cpu(if Taken(op, m.f) then t else next, m)
    case Rts => Isa.Cpu(WrapAddress(m.TopWord() + 1), m.Drop().Drop())
  }

  lemma ExecuteDenoted(insn: Instruction, d: Decoded, m: Isa.Machine)
    requires insn.Valid() && Denotes(insn, d) && d.pc + d.op.Size() < 0x1_0000
    ensures Isa.Execute(insn, m) == Isa.Stepped(Meaning(d.op, m, d.pc + d.op.Size()))
  {
  }

  /** One interpreter step on loaded code is the instruction's meaning. */
  lemma StepIsMeaning(bytes: seq<Byte>, start: Address, s: Isa.Cpu, d: Decoded)
    requires CodeIn(bytes, start, s.m.bus) && s.pc == d.pc && 0 <= d.pc - start < |bytes|
    requires DecodeOne(bytes, start, d.pc - start) == Ok(d)
    ensures Isa.Current(Shipped(), s).Valid()
    ensures Isa.Step(Shipped(), s) == Isa.Stepped(Meaning(d.op, s.m, d.pc + d.op.Size()))
  {
    CurrentDenotes(bytes, start, s, d);
    ExecuteDenoted(Isa.Current(Shipped(), s), d, s.m);
  }
}
