/**
 The semantic intermediate representation and its meaning. Operations that
 differ only in the register or ALU function they name share a constructor.
 */
module Ir {
  import opened Bytes
  import opened Isa

  datatype MemRegion =
    | ZeroPageRegion | StackRegion | Ram | RamMirror | PpuReg | PpuMirror
    | OamDma | ApuIo | MapperSpace | PrgRam | PrgRom

  function ClassifyAddr(a: Address): MemRegion {
    if a < 0x100 then ZeroPageRegion
    else if a < 0x200 then StackRegion
    else if a < 0x800 then Ram
    else if a < 0x2000 then RamMirror
    else if a < 0x2008 then PpuReg
    else if a < 0x4000 then PpuMirror
    else if a == 0x4014 then OamDma
    else if a < 0x4020 then ApuIo
    else if a < 0x6000 then MapperSpace
    else if a < 0x8000 then PrgRam
    else PrgRom
  }

  /** The memory map: pages 0 and 1, internal RAM and its mirrors, eight PPU registers and theirs, the APU block around $4014, and three blocks of 8 KiB and up. */
  lemma RegionsAre(a: Address)
    ensures ClassifyAddr(a).ZeroPageRegion? <==> a / 256 == 0
    ensures ClassifyAddr(a).StackRegion? <==> a / 256 == 1
    ensures ClassifyAddr(a).Ram? <==> 2 <= a / 256 <= 7
    ensures ClassifyAddr(a).RamMirror? <==> 8 <= a / 256 <= 0x1F
    ensures ClassifyAddr(a).PpuReg? <==> a / 8 == 0x400
    ensures ClassifyAddr(a).PpuMirror? <==> a / 0x2000 == 1 && a / 8 != 0x400
    ensures ClassifyAddr(a).OamDma? <==> a == 0x4014
    ensures ClassifyAddr(a).ApuIo? <==> a / 0x20 == 0x200 && a != 0x4014
    ensures ClassifyAddr(a).MapperSpace? <==> a / 0x2000 == 2 && a / 0x20 != 0x200
    ensures ClassifyAddr(a).PrgRam? <==> a / 0x2000 == 3
    ensures ClassifyAddr(a).PrgRom? <==> a / 0x8000 == 1
  {
  }

  datatype AddrExpr =
    | Const(a: Address) | ZpConst(zp: Byte) | ZpIndexedX(zp: Byte) | ZpIndexedY(zp: Byte)
    | AbsIndexedX(a: Address) | AbsIndexedY(a: Address) | IndirectPtrX(zp: Byte) | IndirectPtrY(zp: Byte)

  /** Loads, ALU operations and comparisons, from an immediate or from memory. */
  datatype ReadOp = Lda | Ldx | Ldy | Adc | Sbc | And | Ora | Eor | Cmp | Cpx | Cpy | BitTest

  datatype StoreOp = Sta | Stx | Sty | Sax

  datatype ModifyOp = AslM | LsrM | RolM | RorM | Inc | Dec

  datatype RegisterOp =
    | Tax | Tay | Txa | Tya | Tsx | Txs | Pha | Php | Pla | Plp
    | AslA | LsrA | RolA | RorA | Inx | Iny | Dex | Dey
    | Clc | Sec | Cli | Sei | Clv | Cld | Sed | Nop

  datatype Cond = Carry | NoCarry | Zero | NotZero | Negative | Positive | Overflow | NoOverflow

  datatype Op =
    | Label(name: string)
    | Source(pc: Address, size: int)
    | ReadImm(read: ReadOp, value: Byte)
    | ReadMem(read: ReadOp, addr: AddrExpr, region: MemRegion)
    | StoreMem(store: StoreOp, addr: AddrExpr, region: MemRegion)
    | ModifyMem(rmw: ModifyOp, addr: AddrExpr, region: MemRegion)
    | Register(reg: RegisterOp)
    | BranchIf(cond: Cond, target: string)
    | Jmp(target: string)
    | ReturnEscape(target: string, returnAddr: Address, alreadyConsumed: bool)
    | ReturnEscapeConsume(returnAddr: Address)
    | ReturnConsume(returnAddrs: seq<Address>)
    | JmpIndirect(pointer: Address)
    | Jsr(target: string)
    | MaterializedJsr(target: string, returnAddr: Address)
    | JumpEngineCall(targets: seq<string>, returnTarget: Option<string>, tailIndices: seq<nat>,
                     stackReturnBytes: Byte, targetEntryA: seq<Byte>)
    | JsrUnknown(callee: Address)
    | MapperWrite(register: Address)
    | Rts
    | Rti
    | RtsDispatch
    | Brk(at: Address)
    | Jam(at: Address, opcode: int)
    | Unsupported(at: Address, opcode: int)

  function Resolve(e: AddrExpr, m: Machine): Address {
    match e
    case Const(a) => a
    case ZpConst(zp) => zp
    case ZpIndexedX(zp) => (zp + m.x) % 256
    case ZpIndexedY(zp) => (zp + m.y) % 256
    case AbsIndexedX(a) => WrapAddress(a + m.x)
    case AbsIndexedY(a) => WrapAddress(a + m.y)
    case IndirectPtrX(zp) => m.bus.Pointer((zp + m.x) % 256)
    case IndirectPtrY(zp) => WrapAddress(m.bus.Pointer(zp) + m.y)
  }

  function ReadEffect(op: ReadOp, v: Byte, m: Machine): Machine {
    match op
    case Lda => m.LoadA(v)
    case Ldx => m.LoadX(v)
    case Ldy => m.LoadY(v)
    case Adc => m.Adc(v)
    case Sbc => m.Sbc(v)
    case And => m.LoadA(And8(m.a, v))
    case Ora => m.LoadA(Or8(m.a, v))
    case Eor => m.LoadA(Xor8(m.a, v))
    case Cmp => m.Compare(m.a, v)
    case Cpx => m.Compare(m.x, v)
    case Cpy => m.Compare(m.y, v)
    case BitTest => m.Bit(v)
  }

  function StoreValue(op: StoreOp, m: Machine): Byte {
    match op
    case Sta => m.a
    case Stx => m.x
    case Sty => m.y
    case Sax => And8(m.a, m.x)
  }

  function ModifyEffect(op: ModifyOp, ea: Address, m: Machine): Machine {
    match op
    case AslM => m.ShiftMem(Asl, ea)
    case LsrM => m.ShiftMem(Lsr, ea)
    case RolM => m.ShiftMem(Rol, ea)
    case RorM => m.ShiftMem(Ror, ea)
    case Inc => m.StepMem(ea, 1)
    case Dec => m.StepMem(ea, -1)
  }

  function RegisterEffect(op: RegisterOp, m: Machine): Machine {
    match op
    case Tax => m.LoadX(m.a)
    case Tay => m.LoadY(m.a)
    case Txa => m.LoadA(m.x)
    case Tya => m.LoadA(m.y)
    case Tsx => m.LoadX(m.sp)
    case Txs => m.(sp := m.x)
    case Pha => m.Push(m.a)
    case Php => m.Push(FlagsByte(m.f.(b := true, u := true)))
    case Pla => m.Drop().LoadA(m.Top())
    case Plp => m.Drop().(f := ByteFlags(m.Top()).(b := false, u := true))
    case AslA => m.ShiftA(Asl)
    case LsrA => m.ShiftA(Lsr)
    case RolA => m.ShiftA(Rol)
    case RorA => m.ShiftA(Ror)
    case Inx => m.LoadX(WrapByte(m.x + 1))
    case Iny => m.LoadY(WrapByte(m.y + 1))
    case Dex => m.LoadX(WrapByte(m.x - 1))
    case Dey => m.LoadY(WrapByte(m.y - 1))
    case Clc => m.(f := m.f.(c := false))
    case Sec => m.(f := m.f.(c := true))
    case Cli => m.(f := m.f.(i := false))
    case Sei => m.(f := m.f.(i := true))
    case Clv => m.(f := m.f.(v := false))
    case Cld => m.(f := m.f.(d := false))
    case Sed => m.(f := m.f.(d := true))
    case Nop => m
  }

  predicate Holds(c: Cond, f: Flags) {
    match c
    case Carry => f.c
    case NoCarry => !f.c
    case Zero => f.z
    case NotZero => !f.z
    case Negative => f.n
    case Positive => !f.n
    case Overflow => f.v
    case NoOverflow => !f.v
  }

  /** Operations after which execution always continues with the next one. */
  predicate Sequential(op: Op) {
    op.Label? || op.Source? || op.ReadImm? || op.ReadMem? || op.StoreMem? || op.ModifyMem? || op.Register?
  }

  function Effect(op: Op, m: Machine): Machine
    requires Sequential(op)
  {
    match op
    case Label(_) => m
    case Source(_, _) => m
    case ReadImm(read, v) => ReadEffect(read, v, m)
    case ReadMem(read, addr, _) => ReadEffect(read, m.bus.Read(Resolve(addr, m)), m)
    case StoreMem(store, addr, _) => m.Store(Resolve(addr, m), StoreValue(store, m))
    case ModifyMem(rmw, addr, _) => ModifyEffect(rmw, Resolve(addr, m), m)
    case Register(reg) => RegisterEffect(reg, m)
  }

  predicate AllSequential(ops: seq<Op>) {
    forall k :: 0 <= k < |ops| ==> Sequential(ops[k])
  }

  /** The combined effect of a run of sequential operations. */
  function Effects(ops: seq<Op>, m: Machine): Machine
    requires AllSequential(ops)
  {
    if ops == [] then m else Effects(ops[1..], Effect(ops[0], m))
  }

  datatype Stop =
    | External(name: string)  // a branch or jump to a label this routine does not define
    | FellOff                  // past the last operation
    | Exit(op: Op)             // a call, return, trap or dispatch, left to the runtime

  datatype Config = At(index: nat, m: Machine) | Stopped(why: Stop, m: Machine)

  /** Index of the first definition of a label. */
  function FindLabel(ops: seq<Op>, name: string, from: nat := 0): (r: Option<nat>)
    requires from <= |ops|
    ensures r.Some? ==> from <= r.value < |ops| && ops[r.value] == Label(name)
    ensures r.Some? ==> forall k :: from <= k < r.value ==> ops[k] != Label(name)
    ensures r.None? ==> forall k :: from <= k < |ops| ==> ops[k] != Label(name)
    decreases |ops| - from
  {
    if from == |ops| then None
    else if ops[from] == Label(name) then Some(from)
    else FindLabel(ops, name, from + 1)
  }

  function Goto(ops: seq<Op>, name: string, m: Machine): Config {
    match FindLabel(ops, name)
    case Some(k) => At(k, m)
    case None => Stopped(External(name), m)
  }

  /** One operation of the routine. */
  function StepOp(ops: seq<Op>, c: Config): Config {
    if c.Stopped? then c
    else if c.index >= |ops| then Stopped(FellOff, c.m)
    else
      var op := ops[c.index];
      if Sequential(op) then At(c.index + 1, Effect(op, c.m))
      else if op.BranchIf? then
        if Holds(op.cond, c.m.f) then Goto(ops, op.target, c.m) else At(c.index + 1, c.m)
      else if op.Jmp? then Goto(ops, op.target, c.m)
      else Stopped(Exit(op), c.m)
  }

  function RunOps(ops: seq<Op>, c: Config, steps: nat): Config
    decreases steps
  {
    if steps == 0 then c else RunOps(ops, StepOp(ops, c), steps - 1)
  }

  lemma {:induction false} RunOpsAdd(ops: seq<Op>, c: Config, a: nat, b: nat)
    ensures RunOps(ops, c, a + b) == RunOps(ops, RunOps(ops, c, a), b)
    decreases a
  {
    if a > 0 {
      RunOpsAdd(ops, StepOp(ops, c), a - 1, b);
    }
  }

  lemma RunOne(ops: seq<Op>, c: Config)
    ensures RunOps(ops, c, 1) == StepOp(ops, c)
  {
    assert RunOps(ops, c, 1) == RunOps(ops, StepOp(ops, c), 0);
  }

  /** A sequential stretch advances the index by its length and applies its effects in order. */
  lemma {:induction false} RunSequential(ops: seq<Op>, at: nat, m: Machine, block: seq<Op>)
    requires at + |block| <= |ops| && ops[at..at + |block|] == block && AllSequential(block)
    ensures RunOps(ops, At(at, m), |block|) == At(at + |block|, Effects(block, m))
    decreases |block|
  {
    if block != [] {
      assert ops[at] == block[0];
      assert ops[at + 1..at + |block|] == block[1..];
      RunSequential(ops, at + 1, Effect(block[0], m), block[1..]);
    }
  }

  lemma {:induction false} EffectsAppend(a: seq<Op>, b: seq<Op>, m: Machine)
    requires AllSequential(a) && AllSequential(b)
    ensures AllSequential(a + b) && Effects(a + b, m) == Effects(b, Effects(a, m))
    decreases |a|
  {
    if a == [] {
      assert a + b == b;
    } else {
      EffectsAppend(a[1..], b, Effect(a[0], m));
      assert (a + b)[1..] == a[1..] + b;
    }
  }
}
