/**
 The proof-of-concept compiler from a slice of 6502 bytes to Z80 bytes: decoder,
 lifter and one-pass lowering with back-patched labels. The one-pass result is
 proved equal to a two-pass reference assembly.
 */
module FragmentCompiler {
  import opened Bytes
  import opened Z80Backend
  import opened Lifter
  import opened AscendingOrder

  datatype CompileError =
    | TooShort
    | Mismatch
    | Truncated(pc: Address)
    | Unsupported(opcode: Byte, pc: Address)
    | Unresolved

  datatype DecodedOp =
    | LdaImm(value: Byte)
    | LdaZp(addr: Byte)
    | Clc
    | AdcImm(value: Byte)
    | StaZp(addr: Byte)
    | CmpImm(value: Byte)
    | Bne(target: Address)
    | Bcs(target: Address)
    | Bcc(target: Address)
    | Rts
  {
    predicate IsBranch() {
      Bne? || Bcs? || Bcc?
    }

    function Size(): nat {
      if Clc? || Rts? then 1 else 2
    }
  }

  datatype Decoded = Decoded(pc: Address, op: DecodedOp)

  datatype IrOp =
    | Label(name: string)
    | Source6502(pc: Address)
    | LoadAImm(value: Byte)
    | LoadA(zp: Byte)
    | ClearCarry
    | AdcImmediate(value: Byte)
    | CmpImmediate(value: Byte)
    | StoreA(zp: Byte)
    | BranchIfZClear(name: string)
    | BranchIfCarrySet(name: string)
    | BranchIfCarryClear(name: string)
    | Return

  // ----- decoding -----

  function OpcodeSize(opcode: Byte): nat {
    if opcode == 0x18 || opcode == 0x60 then 1
    else if opcode == 0xA9 || opcode == 0xA5 || opcode == 0x69 || opcode == 0x85 || opcode == 0xC9 || opcode == 0xD0 || opcode == 0xB0 || opcode == 0x90 then 2
    else 0
  }

  function OpFor(opcode: Byte, operand: Byte, pc: Address): (op: DecodedOp)
    requires OpcodeSize(opcode) > 0
    ensures op.Size() == OpcodeSize(opcode)
  {
    var target := WrapAddress(pc + 2 + Signed(operand));
    if opcode == 0xA9 then LdaImm(operand)
    else if opcode == 0xA5 then LdaZp(operand)
    else if opcode == 0x18 then Clc
    else if opcode == 0x69 then AdcImm(operand)
    else if opcode == 0x85 then StaZp(operand)
    else if opcode == 0xC9 then CmpImm(operand)
    else if opcode == 0xD0 then Bne(target)
    else if opcode == 0xB0 then Bcs(target)
    else if opcode == 0x90 then Bcc(target)
    else Rts
  }

  function DecodeOne(bytes: seq<Byte>, start: Address, offset: nat): Result<Decoded, CompileError>
    requires offset < |bytes| && start + |bytes| < 0x1_0000
  {
    var pc: Address := start + offset;
    var opcode := bytes[offset];
    if OpcodeSize(opcode) == 0 then Err(Unsupported(opcode, pc))
    else if offset + OpcodeSize(opcode) > |bytes| then Err(Truncated(pc))
    else Ok(Decoded(pc, OpFor(opcode, if OpcodeSize(opcode) == 2 then bytes[offset + 1] else 0, pc)))
  }

  function DecodeFrom(bytes: seq<Byte>, start: Address, offset: nat): Result<seq<Decoded>, CompileError>
    requires offset <= |bytes| && start + |bytes| < 0x1_0000
    decreases |bytes| - offset
  {
    if offset == |bytes| then Ok([]) else
    match DecodeOne(bytes, start, offset)
    case Err(e) => Err(e)
    case Ok(d) =>
      match DecodeFrom(bytes, start, offset + d.op.Size())
      case Err(e) => Err(e)
      case Ok(rest) => Ok([d] + rest)
  }

  function After(out: seq<Decoded>, r: Result<seq<Decoded>, CompileError>): Result<seq<Decoded>, CompileError> {
    if r.Ok? then Ok(out + r.value) else r
  }

  method Decode(bytes: seq<Byte>, start: Address) returns (r: Result<seq<Decoded>, CompileError>)
    requires start + |bytes| < 0x1_0000
    ensures r == DecodeFrom(bytes, start, 0)
  {
    var out: seq<Decoded> := [];
    var offset := 0;
    ghost var all := DecodeFrom(bytes, start, 0);
    assert all.Ok? ==> [] + all.value == all.value;
    while offset < |bytes|
      invariant 0 <= offset <= |bytes|
      invariant DecodeFrom(bytes, start, 0) == After(out, DecodeFrom(bytes, start, offset))
    {
      var pc: Address := start + offset;
      var opcode := bytes[offset];
      if OpcodeSize(opcode) == 0 {
        return Err(Unsupported(opcode, pc));
      }
      if offset + OpcodeSize(opcode) > |bytes| {
        return Err(Truncated(pc));
      }
      var operand: Byte := 0;
      if OpcodeSize(opcode) == 2 {
        operand := bytes[offset + 1];
      }
      var d := Decoded(pc, OpFor(opcode, operand, pc));
      assert DecodeOne(bytes, start, offset) == Ok(d);
      offset := offset + OpcodeSize(opcode);
      ghost var rest := DecodeFrom(bytes, start, offset);
      assert rest.Ok? ==> out + ([d] + rest.value) == (out + [d]) + rest.value;
      out := out + [d];
    }
    assert out + [] == out;
    r := Ok(out);
  }

  // ----- lifting -----

  function AutoLabel(a: Address): string {
    "L_" + Hex4(a)
  }

  function NameOf(a: Address, start: Address, entry: string): string {
    if a == start then entry else AutoLabel(a)
  }

  function LiftOp(op: DecodedOp): IrOp {
    match op
    case LdaImm(v) => LoadAImm(v)
    case LdaZp(zp) => LoadA(zp)
    case Clc => ClearCarry
    case AdcImm(v) => AdcImmediate(v)
    case StaZp(zp) => StoreA(zp)
    case CmpImm(v) => CmpImmediate(v)
    case Bne(t) => BranchIfZClear(AutoLabel(t))
    case Bcs(t) => BranchIfCarrySet(AutoLabel(t))
    case Bcc(t) => BranchIfCarryClear(AutoLabel(t))
    case Rts => Return
  }

  function LiftOne(d: Decoded, labels: set<Address>, start: Address, entry: string): seq<IrOp> {
    (if d.pc in labels then [Label(NameOf(d.pc, start, entry))] else []) + [Source6502(d.pc), LiftOp(d.op)]
  }

  function Body(ds: seq<Decoded>, labels: set<Address>, start: Address, entry: string): seq<IrOp> {
    if ds == [] then [] else LiftOne(ds[0], labels, start, entry) + Body(ds[1..], labels, start, entry)
  }

  function Stubs(targets: seq<Address>): seq<IrOp> {
    if targets == [] then [] else [Label(AutoLabel(targets[0])), Return] + Stubs(targets[1..])
  }

  function Targets(ds: seq<Decoded>): set<Address> {
    if ds == [] then {} else
    var last := ds[|ds| - 1].op;
    Targets(ds[..|ds| - 1]) + if last.IsBranch() then {last.target} else {}
  }

  function Inside(ds: seq<Decoded>, start: Address, end: int): set<Address> {
    {start} + set t | t in Targets(ds) && start <= t < end
  }

  function Outside(ds: seq<Decoded>, start: Address, end: int): set<Address> {
    set t | t in Targets(ds) && !(start <= t < end)
  }

  function Lifted(ds: seq<Decoded>, start: Address, end: int, entry: string): seq<IrOp> {
    Body(ds, Inside(ds, start, end), start, entry) + Stubs(Ascending(Outside(ds, start, end), 0))
  }

  function LiftedRange(prg: seq<Byte>, start: Address, expected: seq<Byte>, entry: string): Result<seq<IrOp>, CompileError>
    requires 0x8000 <= start && start + |expected| < 0x1_0000
  {
    var offset := start - 0x8000;
    if |prg| < offset + |expected| then Err(TooShort)
    else if prg[offset..offset + |expected|] != expected then Err(Mismatch)
    else LiftedDecoding(DecodeFrom(expected, start, 0), start, start + |expected|, entry)
  }

  function LiftedDecoding(decoded: Result<seq<Decoded>, CompileError>, start: Address, end: int, entry: string):
    Result<seq<IrOp>, CompileError>
  {
    match decoded
    case Err(e) => Err(e)
    case Ok(ds) => Ok(Lifted(ds, start, end, entry))
  }

  /** Sorts the branch targets into those inside the slice and those outside. */
  method CollectTargets(ds: seq<Decoded>, start: Address, end: int) returns (labels: set<Address>, external: set<Address>)
    ensures labels == Inside(ds, start, end) && external == Outside(ds, start, end)
  {
    labels, external := {start}, {};
    var n := 0;
    while n < |ds|
      invariant 0 <= n <= |ds|
      invariant labels == Inside(ds[..n], start, end) && external == Outside(ds[..n], start, end)
    {
      assert ds[..n + 1][..n] == ds[..n];
      if ds[n].op.IsBranch() {
        var target := ds[n].op.target;
        if start <= target < end {
          labels := labels + {target};
        } else {
          external := external + {target};
        }
      }
      n := n + 1;
    }
    assert ds[..n] == ds;
  }

  /** `lift_supported_range`; the caller's addresses must not overflow the address arithmetic. */
  method LiftSupportedRange(prg: seq<Byte>, start: Address, expected: seq<Byte>, entry: string)
    returns (r: Result<seq<IrOp>, CompileError>)
    requires 0x8000 <= start && start + |expected| < 0x1_0000
    ensures r == LiftedRange(prg, start, expected, entry)
  {
    var offset := start - 0x8000;
    if |prg| < offset + |expected| {
      return Err(TooShort);
    }
    if prg[offset..offset + |expected|] != expected {
      return Err(Mismatch);
    }
    var decoded := Decode(expected, start);
    r := LiftDecoded(decoded, start, start + |expected|, entry);
  }

  method LiftDecoded(decoded: Result<seq<Decoded>, CompileError>, start: Address, end: int, entry: string)
    returns (r: Result<seq<IrOp>, CompileError>)
    ensures r == LiftedDecoding(decoded, start, end, entry)
  {
    if decoded.Err? {
      return Err(decoded.error);
    }
    var ds := decoded.value;
    var labels, external := CollectTargets(ds, start, end);
    var body := EmitBody(ds, labels, start, entry);
    var stubs := EmitStubs(Ascending(external, 0));
    r := Ok(body + stubs);
  }

  method EmitBody(ds: seq<Decoded>, labels: set<Address>, start: Address, entry: string) returns (ir: seq<IrOp>)
    ensures ir == Body(ds, labels, start, entry)
  {
    ir := [];
    var n := 0;
    assert ds[0..] == ds;
    while n < |ds|
      invariant 0 <= n <= |ds|
      invariant ir + Body(ds[n..], labels, start, entry) == Body(ds, labels, start, entry)
    {
      Regroup(ir, LiftOne(ds[n], labels, start, entry), Body(ds[n + 1..], labels, start, entry));
      assert ds[n..][1..] == ds[n + 1..];
      ir := ir + LiftOne(ds[n], labels, start, entry);
      n := n + 1;
    }
  }

  method EmitStubs(targets: seq<Address>) returns (ir: seq<IrOp>)
    ensures ir == Stubs(targets)
  {
    ir := [];
    var k := 0;
    assert targets[0..] == targets;
    while k < |targets|
      invariant 0 <= k <= |targets|
      invariant ir + Stubs(targets[k..]) == Stubs(targets)
    {
      Regroup(ir, [Label(AutoLabel(targets[k])), Return], Stubs(targets[k + 1..]));
      assert targets[k..][1..] == targets[k + 1..];
      ir := ir + [Label(AutoLabel(targets[k])), Return];
      k := k + 1;
    }
  }

  // ----- one-pass lowering -----

  const NES_RAM_BASE: Address := 0xC000

  function Lower(op: IrOp, s: Asm): Asm {
    match op
    case Label(name) => s.Define(name)
    case Source6502(_) => s
    case LoadAImm(v) => s.Emit([0x3E, v])
    case LoadA(zp) => s.Emit([0x3A, Low(NES_RAM_BASE + zp), High(NES_RAM_BASE + zp)])
    case ClearCarry => s.Emit([0xA7])
    case AdcImmediate(v) => s.Emit([if v == 2 then 0xC6 else 0xCE, v])
    case CmpImmediate(v) => s.Emit([0xFE, v])
    case StoreA(zp) => s.Emit([0x32, Low(NES_RAM_BASE + zp), High(NES_RAM_BASE + zp)])
    case BranchIfZClear(name) => s.EmitHole(0xC2, name)
    case BranchIfCarrySet(name) => s.EmitHole(0xD2, name)
    case BranchIfCarryClear(name) => s.EmitHole(0xDA, name)
    case Return => s.Emit([0xC9])
  }

  function LowerAll(ops: seq<IrOp>, s: Asm): Asm {
    if ops == [] then s else LowerAll(ops[1..], Lower(ops[0], s))
  }

  method LowerOp(z80: Z80Program, op: IrOp)
    modifies z80
    ensures z80.State() == Lower(op, old(z80.State()))
  {
    match op
    case Label(name) => z80.Label(name);
    case Source6502(_) =>
    case LoadAImm(v) => z80.WithByte(0x3E, v);
    case LoadA(zp) => z80.WithWord(0x3A, NES_RAM_BASE + zp);
    case ClearCarry => z80.EmitByte(0xA7);
    case AdcImmediate(v) =>
      if v == 0x02 {
        z80.WithByte(0xC6, v);
      } else {
        z80.WithByte(0xCE, v);
      }
    case CmpImmediate(v) => z80.WithByte(0xFE, v);
    case StoreA(zp) => z80.WithWord(0x32, NES_RAM_BASE + zp);
    case BranchIfZClear(name) => z80.WithLabel(0xC2, name);
    case BranchIfCarrySet(name) => z80.WithLabel(0xD2, name);
    case BranchIfCarryClear(name) => z80.WithLabel(0xDA, name);
    case Return => z80.EmitByte(0xC9);
  }

  // ----- the two-pass reference assembler -----

  predicate Names(op: IrOp) {
    op.BranchIfZClear? || op.BranchIfCarrySet? || op.BranchIfCarryClear?
  }

  function Width(op: IrOp): nat {
    match op
    case Label(_) | Source6502(_) => 0
    case LoadAImm(_) | AdcImmediate(_) | CmpImmediate(_) => 2
    case ClearCarry | Return => 1
    case LoadA(_) | StoreA(_) | BranchIfZClear(_) | BranchIfCarrySet(_) | BranchIfCarryClear(_) => 3
  }

  function TotalWidth(ops: seq<IrOp>): nat {
    if ops == [] then 0 else Width(ops[0]) + TotalWidth(ops[1..])
  }

  /** First pass: where every label falls when the code starts at `at`; a later definition wins. */
  function Labels(ops: seq<IrOp>, at: nat, known: map<string, Address>): map<string, Address> {
    if ops == [] then known
    else Labels(ops[1..], at + Width(ops[0]), if ops[0].Label? then known[ops[0].name := at % 0x1_0000] else known)
  }

  ghost predicate Resolves(ops: seq<IrOp>, labels: map<string, Address>) {
    forall i :: 0 <= i < |ops| && Names(ops[i]) ==> ops[i].name in labels
  }

  /** Second pass: each instruction with its label value in place. */
  function Encode(op: IrOp, labels: map<string, Address>): (r: seq<Byte>)
    requires Names(op) ==> op.name in labels
    ensures |r| == Width(op)
  {
    match op
    case Label(_) | Source6502(_) => []
    case LoadAImm(v) => [0x3E, v]
    case LoadA(zp) => [0x3A, Low(NES_RAM_BASE + zp), High(NES_RAM_BASE + zp)]
    case ClearCarry => [0xA7]
    case AdcImmediate(v) => [if v == 2 then 0xC6 else 0xCE, v]
    case CmpImmediate(v) => [0xFE, v]
    case StoreA(zp) => [0x32, Low(NES_RAM_BASE + zp), High(NES_RAM_BASE + zp)]
    case BranchIfZClear(name) => [0xC2, Low(labels[name]), High(labels[name])]
    case BranchIfCarrySet(name) => [0xD2, Low(labels[name]), High(labels[name])]
    case BranchIfCarryClear(name) => [0xDA, Low(labels[name]), High(labels[name])]
    case Return => [0xC9]
  }

  function Assemble(ops: seq<IrOp>, labels: map<string, Address>): (r: seq<Byte>)
    requires Resolves(ops, labels)
    ensures |r| == TotalWidth(ops)
  {
    if ops == [] then [] else Encode(ops[0], labels) + Assemble(ops[1..], labels)
  }

  // ----- one pass with back-patching equals two passes -----

  lemma {:induction false} FillPrefix(bytes: seq<Byte>, more: seq<Byte>, patches: seq<Patch>, labels: map<string, Address>)
    requires Fillable(bytes, patches, labels)
    ensures Fillable(bytes + more, patches, labels)
    ensures Fill(bytes + more, patches, labels) == Fill(bytes, patches, labels) + more
  {
    if patches != [] {
      FillPrefix(bytes, more, patches[..|patches| - 1], labels);
    }
  }

  ghost predicate Filled(s: Asm, labels: map<string, Address>, code: seq<Byte>) {
    Fillable(s.bytes, s.patches, labels) && Fill(s.bytes, s.patches, labels) == code
  }

  lemma EmitFill(s: Asm, more: seq<Byte>, labels: map<string, Address>, code: seq<Byte>)
    requires Filled(s, labels, code)
    ensures Filled(s.Emit(more), labels, code + more)
  {
    FillPrefix(s.bytes, more, s.patches, labels);
  }

  lemma EmitHoleFill(s: Asm, opcode: Byte, name: string, labels: map<string, Address>, code: seq<Byte>)
    requires Filled(s, labels, code) && name in labels
    ensures Filled(s.EmitHole(opcode, name), labels, code + [opcode, Low(labels[name]), High(labels[name])])
  {
    FillPrefix(s.bytes, [opcode, 0, 0], s.patches, labels);
    assert s.EmitHole(opcode, name).patches[..|s.patches|] == s.patches;
    HoleAtEnd(code, opcode, labels[name]);
  }

  lemma LowerFill(op: IrOp, s: Asm, labels: map<string, Address>, code: seq<Byte>)
    requires Filled(s, labels, code) && (Names(op) ==> op.name in labels)
    ensures Filled(Lower(op, s), labels, code + Encode(op, labels))
  {
    if Names(op) {
      EmitHoleFill(s, Encode(op, labels)[0], op.name, labels, code);
    } else if Width(op) == 0 {
      assert code + [] == code;
    } else {
      EmitFill(s, Encode(op, labels), labels, code);
    }
  }

  lemma HoleAtEnd(bytes: seq<Byte>, opcode: Byte, value: Address)
    ensures FillHole(bytes + [opcode, 0, 0], |bytes| + 1, value) == bytes + [opcode, Low(value), High(value)]
  {
  }

  lemma ResolvesTail(ops: seq<IrOp>, labels: map<string, Address>)
    requires ops != []
    ensures Resolves(ops, labels) <==> (Names(ops[0]) ==> ops[0].name in labels) && Resolves(ops[1..], labels)
  {
    assert forall i :: 0 <= i < |ops[1..]| ==> ops[1..][i] == ops[i + 1];
    assert forall i :: 0 < i < |ops| ==> ops[i] == ops[1..][i - 1];
  }

  lemma Regroup<T>(a: seq<T>, b: seq<T>, c: seq<T>)
    ensures (a + b) + c == a + (b + c)
  {
  }

  lemma {:induction false} LowerAllFill(ops: seq<IrOp>, s: Asm, labels: map<string, Address>, code: seq<Byte>)
    requires Filled(s, labels, code) && Resolves(ops, labels)
    ensures Filled(LowerAll(ops, s), labels, code + Assemble(ops, labels))
  {
    if ops == [] {
      assert code + [] == code;
    } else {
      ResolvesTail(ops, labels);
      var first := Encode(ops[0], labels);
      LowerFill(ops[0], s, labels, code);
      LowerAllFill(ops[1..], Lower(ops[0], s), labels, code + first);
      Regroup(code, first, Assemble(ops[1..], labels));
    }
  }

  lemma {:induction false} LowerAllLabels(ops: seq<IrOp>, s: Asm)
    ensures LowerAll(ops, s).labels == Labels(ops, |s.bytes|, s.labels)
  {
    if ops != [] {
      LowerAllLabels(ops[1..], Lower(ops[0], s));
    }
  }

  ghost predicate PatchesCover(s: Asm, labels: map<string, Address>) {
    forall i :: 0 <= i < |s.patches| ==> s.patches[i].name in labels
  }

  lemma LowerPatches(op: IrOp, s: Asm, labels: map<string, Address>)
    requires s.Valid()
    ensures Lower(op, s).Valid()
    ensures PatchesCover(Lower(op, s), labels) <==> PatchesCover(s, labels) && (Names(op) ==> op.name in labels)
  {
    var s' := Lower(op, s);
    if Names(op) {
      assert s'.patches[|s.patches|].name == op.name;
      assert forall i :: 0 <= i < |s.patches| ==> s'.patches[i] == s.patches[i];
    }
  }

  lemma {:induction false} LowerAllPatches(ops: seq<IrOp>, s: Asm, labels: map<string, Address>)
    requires s.Valid()
    ensures LowerAll(ops, s).Valid()
    ensures PatchesCover(LowerAll(ops, s), labels) <==> PatchesCover(s, labels) && Resolves(ops, labels)
  {
    if ops != [] {
      LowerPatches(ops[0], s, labels);
      LowerAllPatches(ops[1..], Lower(ops[0], s), labels);
      ResolvesTail(ops, labels);
    }
  }

  /** Emission with back-patching succeeds exactly when the two-pass assembler resolves every name, with the same bytes. */
  lemma OnePassIsTwoPass(ops: seq<IrOp>)
    ensures var s := LowerAll(ops, EMPTY);
            var labels := Labels(ops, 0, map[]);
            && s.Valid() && s.labels == labels
            && (s.Resolved() <==> Resolves(ops, labels))
            && (Resolves(ops, labels) ==> Fillable(s.bytes, s.patches, labels) && Fill(s.bytes, s.patches, labels) == Assemble(ops, labels))
  {
    var labels := Labels(ops, 0, map[]);
    LowerAllLabels(ops, EMPTY);
    LowerAllPatches(ops, EMPTY, labels);
    if Resolves(ops, labels) {
      LowerAllFill(ops, EMPTY, labels, []);
      assert [] + Assemble(ops, labels) == Assemble(ops, labels);
    }
  }

  ghost function Compiled(prg: seq<Byte>, start: Address, slice: seq<Byte>, entry: string): Result<seq<Byte>, CompileError>
    requires 0x8000 <= start && start + |slice| < 0x1_0000
  {
    match LiftedRange(prg, start, slice, entry)
    case Err(e) => Err(e)
    case Ok(ops) => TwoPass(ops)
  }

  ghost function TwoPass(ops: seq<IrOp>): Result<seq<Byte>, CompileError> {
    var labels := Labels(ops, 0, map[]);
    if Resolves(ops, labels) then Ok(Assemble(ops, labels)) else Err(Unresolved)
  }

  /** The shared shape of the demo generators: lift, lower in one pass, finish. */
  method Compile(prg: seq<Byte>, start: Address, slice: seq<Byte>, entry: string) returns (r: Result<seq<Byte>, CompileError>)
    requires 0x8000 <= start && start + |slice| < 0x1_0000
    ensures r == Compiled(prg, start, slice, entry)
  {
    var lifted := LiftSupportedRange(prg, start, slice, entry);
    if lifted.Err? {
      return Err(lifted.error);
    }
    var ops := lifted.value;
    var z80 := new Z80Program();
    var n := 0;
    assert ops[0..] == ops;
    while n < |ops|
      invariant 0 <= n <= |ops| && fresh(z80)
      invariant LowerAll(ops[n..], z80.State()) == LowerAll(ops, EMPTY)
    {
      assert ops[n..][1..] == ops[n + 1..];
      LowerOp(z80, ops[n]);
      n := n + 1;
    }
    OnePassIsTwoPass(ops);
    var code := z80.Finish();
    r := if code.Some? then Ok(code.value) else Err(Unresolved);
  }
}
