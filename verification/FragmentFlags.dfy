/**
 The flag discipline of compiled fragments: what is known about how the Z80 flags
 stand to the 6502 flags, which instructions that knowledge permits, and the proof
 that permission is exactly what one step needs.
 */
module FragmentFlags {
  import opened Bytes
  import Isa
  import Z80Interpreter
  import opened FragmentCompiler
  import opened FragmentSource

  /** How the Z80 carry stands to the 6502 carry; `Clear` also says that both are off. */
  datatype CarryKnowledge = Unknown | Clear | Same | Inverted

  datatype Knowledge = Knowledge(carry: CarryKnowledge, zeroValid: bool)
  {
    /** May `op` run on these flags? */
    predicate Permits(op: DecodedOp) {
      match op
      case AdcImm(v) => carry.Clear? || (carry.Same? && v != 2)
      case Bne(_) => zeroValid
      case Bcs(_) => carry.Inverted?
      case Bcc(_) => carry.Inverted?
      case _ => true
    }

    function After(op: DecodedOp): Knowledge {
      match op
      case LdaImm(_) => this.(zeroValid := false)
      case LdaZp(_) => this.(zeroValid := false)
      case Clc => Knowledge(Clear, false)
      case AdcImm(_) => Knowledge(Same, true)
      case CmpImm(_) => Knowledge(Inverted, true)
      case _ => this
    }

    predicate Holds(f: Isa.Flags, z: Z80Interpreter.Z80) {
      && (carry.Clear? ==> !f.c && !z.carry)
      && (carry.Same? ==> z.carry == f.c)
      && (carry.Inverted? ==> z.carry != f.c)
      && (zeroValid ==> z.zero == f.z)
    }
  }

  /** The accumulators agree, and zero page is mirrored at $C000. */
  ghost predicate SameData(m: Isa.Machine, z: Z80Interpreter.Z80) {
    z.a == m.a && forall zp: Byte :: z.ram[NES_RAM_BASE + zp] == m.bus.mem[zp]
  }

  ghost predicate Related(know: Knowledge, m: Isa.Machine, z: Z80Interpreter.Z80) {
    SameData(m, z) && know.Holds(m.f, z)
  }

  /** The bytes of `op` stand at the Z80 program counter. */
  ghost predicate Encoded(op: DecodedOp, code: seq<Byte>, labels: map<string, Address>, z: Z80Interpreter.Z80) {
    && (op.IsBranch() ==> AutoLabel(op.target) in labels)
    && z.pc + Width(LiftOp(op)) <= |code|
    && code[z.pc..z.pc + Width(LiftOp(op))] == Encode(LiftOp(op), labels)
  }

  /** The Z80 effect of the lowered instruction, with its label already resolved to `place`. */
  function Lowered(op: DecodedOp, loadSetsZero: bool, z: Z80Interpreter.Z80, place: Address): Z80Interpreter.Z80 {
    match op
    case LdaImm(v) => z.(a := v, zero := if loadSetsZero then v == 0 else z.zero, pc := z.pc + 2)
    case LdaZp(zp) => z.(a := z.ram[NES_RAM_BASE + zp], pc := z.pc + 3)
    case Clc => z.(carry := false, zero := z.a == 0, pc := z.pc + 1)
    case AdcImm(v) => z.Add(v, if v != 2 && z.carry then 1 else 0).Go(z.pc + 2)
    case StaZp(zp) => z.(ram := z.ram[NES_RAM_BASE + zp := z.a], pc := z.pc + 3)
    case CmpImm(v) => z.(carry := z.a < v, zero := z.a == v, pc := z.pc + 2)
    case Bne(_) => z.Go(if !z.zero then place else z.pc + 3)
    case Bcs(_) => z.Go(if !z.carry then place else z.pc + 3)
    case Bcc(_) => z.Go(if z.carry then place else z.pc + 3)
    case Rts => z
  }

  lemma WordOfParts(w: Address)
    ensures Word(Low(w), High(w)) == w
  {
  }

  lemma EncodedStep(op: DecodedOp, code: seq<Byte>, labels: map<string, Address>, loadSetsZero: bool, z: Z80Interpreter.Z80)
    requires Encoded(op, code, labels, z)
    ensures var place := if op.IsBranch() then labels[AutoLabel(op.target)] else 0;
            Z80Interpreter.Step(code, loadSetsZero, z)
            == if op.Rts? then Z80Interpreter.Returned(z) else Z80Interpreter.Running(Lowered(op, loadSetsZero, z, place))
  {
    if op.IsBranch() {
      BranchStep(op, code, labels[AutoLabel(op.target)], loadSetsZero, z);
    } else if op.LdaZp? || op.StaZp? {
      MemoryStep(op, code, loadSetsZero, z);
    } else if op.Clc? || op.Rts? {
      SingleByteStep(op, code, loadSetsZero, z);
    } else {
      ImmediateStep(op, code, loadSetsZero, z);
    }
  }

  lemma SliceOf3(code: seq<Byte>, at: nat, a: Byte, b: Byte, c: Byte)
    requires at + 3 <= |code| && code[at..at + 3] == [a, b, c]
    ensures code[at] == a && code[at + 1] == b && code[at + 2] == c
  {
    var here := code[at..at + 3];
    assert here[0] == code[at] && here[1] == code[at + 1] && here[2] == code[at + 2];
  }

  lemma SliceOf2(code: seq<Byte>, at: nat, a: Byte, b: Byte)
    requires at + 2 <= |code| && code[at..at + 2] == [a, b]
    ensures code[at] == a && code[at + 1] == b
  {
    var here := code[at..at + 2];
    assert here[0] == code[at] && here[1] == code[at + 1];
  }

  lemma SliceOf1(code: seq<Byte>, at: nat, a: Byte)
    requires at + 1 <= |code| && code[at..at + 1] == [a]
    ensures code[at] == a
  {
    assert code[at..at + 1][0] == code[at];
  }

  lemma BranchStep(op: DecodedOp, code: seq<Byte>, place: Address, loadSetsZero: bool, z: Z80Interpreter.Z80)
    requires op.IsBranch() && z.pc + 3 <= |code|
    requires code[z.pc..z.pc + 3] == [if op.Bne? then 0xC2 else if op.Bcs? then 0xD2 else 0xDA, Low(place), High(place)]
    ensures Z80Interpreter.Step(code, loadSetsZero, z) == Z80Interpreter.Running(Lowered(op, loadSetsZero, z, place))
  {
    SliceOf3(code, z.pc, if op.Bne? then 0xC2 else if op.Bcs? then 0xD2 else 0xDA, Low(place), High(place));
    WordOfParts(place);
  }

  lemma MemoryStep(op: DecodedOp, code: seq<Byte>, loadSetsZero: bool, z: Z80Interpreter.Z80)
    requires (op.LdaZp? || op.StaZp?) && z.pc + 3 <= |code|
    requires code[z.pc..z.pc + 3] == [if op.LdaZp? then 0x3A else 0x32, Low(NES_RAM_BASE + op.addr), High(NES_RAM_BASE + op.addr)]
    ensures Z80Interpreter.Step(code, loadSetsZero, z) == Z80Interpreter.Running(Lowered(op, loadSetsZero, z, 0))
  {
    var w: Address := NES_RAM_BASE + op.addr;
    SliceOf3(code, z.pc, if op.LdaZp? then 0x3A else 0x32, Low(w), High(w));
    WordOfParts(w);
  }

  lemma SingleByteStep(op: DecodedOp, code: seq<Byte>, loadSetsZero: bool, z: Z80Interpreter.Z80)
    requires (op.Clc? || op.Rts?) && z.pc + 1 <= |code| && code[z.pc..z.pc + 1] == [if op.Clc? then 0xA7 else 0xC9]
    ensures Z80Interpreter.Step(code, loadSetsZero, z)
            == if op.Rts? then Z80Interpreter.Returned(z) else Z80Interpreter.Running(Lowered(op, loadSetsZero, z, 0))
  {
    SliceOf1(code, z.pc, if op.Clc? then 0xA7 else 0xC9);
  }

  lemma ImmediateStep(op: DecodedOp, code: seq<Byte>, loadSetsZero: bool, z: Z80Interpreter.Z80)
    requires (op.LdaImm? || op.AdcImm? || op.CmpImm?) && z.pc + 2 <= |code|
    requires code[z.pc..z.pc + 2]
             == [if op.LdaImm? then 0x3E else if op.CmpImm? then 0xFE else if op.value == 2 then 0xC6 else 0xCE, op.value]
    ensures Z80Interpreter.Step(code, loadSetsZero, z) == Z80Interpreter.Running(Lowered(op, loadSetsZero, z, 0))
  {
    SliceOf2(code, z.pc, if op.LdaImm? then 0x3E else if op.CmpImm? then 0xFE else if op.value == 2 then 0xC6 else 0xCE, op.value);
  }

  lemma StoreSimulates(zp: Byte, m: Isa.Machine, z: Z80Interpreter.Z80)
    requires SameData(m, z) && 256 <= m.bus.romStart
    ensures SameData(m.Store(zp, m.a), z.(ram := z.ram[NES_RAM_BASE + zp := z.a]))
  {
  }

  /** A permitted instruction keeps the two machines related, and both take or skip a branch. */
  lemma PermittedSimulates(op: DecodedOp, know: Knowledge, m: Isa.Machine, z: Z80Interpreter.Z80, loadSetsZero: bool,
                           place: Address, next: Address)
    requires know.Permits(op) && Related(know, m, z) && 256 <= m.bus.romStart && !op.Rts?
    ensures Related(know.After(op), Meaning(op, m, next).m, Lowered(op, loadSetsZero, z, place))
    ensures Lowered(op, loadSetsZero, z, place).pc
            == if op.IsBranch() && Taken(op, m.f) then place else z.pc + Width(LiftOp(op))
  {
    if op.StaZp? {
      StoreSimulates(op.addr, m, z);
    }
  }

  /** Where knowledge does not permit an instruction, related flags exist on which one step goes wrong. */
  lemma NotPermittedFails(op: DecodedOp, know: Knowledge, m: Isa.Machine, z: Z80Interpreter.Z80, loadSetsZero: bool,
                          place: Address, next: Address)
    returns (f: Isa.Flags, carry: bool, zero: bool)
    requires !know.Permits(op) && SameData(m, z) && place != z.pc + 3
    ensures var m', z' := m.(f := f), z.(carry := carry, zero := zero);
            && Related(know, m', z')
            && (op.AdcImm? ==> Lowered(op, loadSetsZero, z', place).a != Meaning(op, m', next).m.a)
            && (op.IsBranch() ==> (Lowered(op, loadSetsZero, z', place).pc == place <==> !Taken(op, m'.f)))
            && (op.AdcImm? || op.IsBranch())
  {
    f := m.f;
    carry := false;
    zero := f.z;
    if op.Bne? {
      zero := !f.z;
      f := f.(c := know.carry.Inverted?);
    } else if op.AdcImm? {
      f := f.(c := true);
      carry := know.carry.Same?;
    } else {
      f := f.(c := !know.carry.Clear?);
      carry := f.c;
    }
  }
}
