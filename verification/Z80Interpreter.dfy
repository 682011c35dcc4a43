/**
 The three small Z80 interpreters that check lowered fragments, merged into one.
 `loadSetsZero` chooses between the branch checker's `LD A,n`, which sets the zero
 flag, and the processor's, which does not; every result holds for both. `JP C` is
 emitted by the compiler but known to none of the three, and is given its usual meaning.
 */
module Z80Interpreter {
  import opened Bytes

  datatype Z80 = Z80(pc: nat, a: Byte, carry: bool, zero: bool, ram: Memory)
  {
    function Add(v: Byte, carryIn: int): Z80
      requires 0 <= carryIn <= 1
    {
      var sum := a + v + carryIn;
      this.(a := WrapByte(a + v + carryIn), carry := sum > 255, zero := WrapByte(a + v + carryIn) == 0)
    }

    function Go(pc': nat): Z80 {
      this.(pc := pc')
    }
  }

  datatype Outcome = Running(z: Z80) | Returned(z: Z80) | Fault

  /** Operand bytes after each known opcode. */
  function OperandCount(op: Byte): Option<nat> {
    if op == 0xA7 || op == 0xC9 then Some(0)
    else if op == 0x3E || op == 0xC6 || op == 0xCE || op == 0xFE then Some(1)
    else if op == 0x3A || op == 0x32 || op == 0xC2 || op == 0xD2 || op == 0xDA then Some(2)
    else None
  }

  function StepByte(op: Byte, v: Byte, loadSetsZero: bool, z: Z80): Z80 {
    if op == 0x3E then z.(a := v, zero := if loadSetsZero then v == 0 else z.zero)
    else if op == 0xC6 then z.Add(v, 0)
    else if op == 0xCE then z.Add(v, if z.carry then 1 else 0)
    else z.(carry := z.a < v, zero := z.a == v)
  }

  function StepWord(op: Byte, w: Address, z: Z80): Z80 {
    if op == 0x3A then z.(a := z.ram[w], pc := z.pc + 3)
    else if op == 0x32 then z.(ram := z.ram[w := z.a], pc := z.pc + 3)
    else
      var taken := if op == 0xC2 then !z.zero else if op == 0xD2 then !z.carry else z.carry;
      z.Go(if taken then w else z.pc + 3)
  }

  function Step(code: seq<Byte>, loadSetsZero: bool, z: Z80): Outcome {
    if z.pc >= |code| then Fault else
    var op := code[z.pc];
    var count := OperandCount(op);
    if count.None? || z.pc + count.value >= |code| then Fault
    else if op == 0xC9 then Returned(z)
    else if op == 0xA7 then Running(z.(carry := false, zero := z.a == 0, pc := z.pc + 1))
    else if count.value == 1 then Running(StepByte(op, code[z.pc + 1], loadSetsZero, z).Go(z.pc + 2))
    else Running(StepWord(op, Word(code[z.pc + 1], code[z.pc + 2]), z))
  }

  function Run(code: seq<Byte>, loadSetsZero: bool, z: Z80, n: nat): Outcome
    decreases n
  {
    if n == 0 then Running(z) else
    var r := Step(code, loadSetsZero, z);
    if r.Running? then Run(code, loadSetsZero, r.z, n - 1) else r
  }
}
