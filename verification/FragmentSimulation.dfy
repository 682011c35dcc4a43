/** The compiled bytes of a fragment run in lock step with the 6502 interpreter. */
module FragmentSimulation {
  import opened Bytes
  import opened OpcodeTable
  import Isa
  import Z80Interpreter
  import opened FragmentCompiler
  import opened FragmentLayout
  import opened FragmentLabels
  import opened FragmentSource
  import opened FragmentFlags

  ghost function Code(f: Fragment): seq<Byte>
    requires Resolves(f.Ops(), f.LabelMap())
  {
    Assemble(f.Ops(), f.LabelMap())
  }

  /** A fragment that compiles, and its bytes. */
  ghost predicate Compilable(f: Fragment) {
    Valid(f) && f.EntryIsFresh() && TargetsOk(f)
  }

  ghost predicate CompilesTo(f: Fragment, code: seq<Byte>) {
    Compilable(f) && TwoPass(f.Ops()) == Ok(code)
  }

  /** The instruction at `pc`. */
  function Find(ds: seq<Decoded>, pc: Address): Option<nat>
  {
    if ds == [] then None
    else if ds[|ds| - 1].pc == pc then Some(|ds| - 1)
    else Find(ds[..|ds| - 1], pc)
  }

  lemma {:induction false} FindIs(ds: seq<Decoded>, pc: Address)
    ensures Find(ds, pc).Some? ==> Find(ds, pc).value < |ds| && ds[Find(ds, pc).value].pc == pc
    ensures Find(ds, pc).None? ==> forall k :: 0 <= k < |ds| ==> ds[k].pc != pc
  {
    if ds != [] {
      FindIs(ds[..|ds| - 1], pc);
    }
  }

  lemma FindUnique(f: Fragment, k: nat)
    requires Valid(f) && k < |f.ds|
    ensures Find(f.ds, f.ds[k].pc) == Some(k)
  {
    FindIs(f.ds, f.ds[k].pc);
    var j := Find(f.ds, f.ds[k].pc).value;
    if j < k { PcsIncrease(f, j, k); } else if k < j { PcsIncrease(f, k, j); }
  }

  lemma FindWithin(f: Fragment, pc: Address)
    requires Valid(f)
    ensures Find(f.ds, pc).Some? ==> f.start <= pc < f.End() && Find(f.ds, pc).value < |f.ds| && f.ds[Find(f.ds, pc).value].pc == pc
  {
    FindIs(f.ds, pc);
    if Find(f.ds, pc).Some? {
      assert DecodedAt(f.bytes, f.start, f.ds, Find(f.ds, pc).value);
    }
  }

  /** The Z80 address at which the source address `pc` is represented. */
  ghost predicate Stands(f: Fragment, pc: Address, at: nat) {
    match Find(f.ds, pc)
    case Some(k) => k < |f.ds| && at == Place(f.Items(), k)
    case None => StandsOutside(f, f.Items(), pc, at)
  }

  ghost predicate StandsOutside(f: Fragment, items: seq<Item>, pc: Address, at: nat)
    requires |items| == |f.ds| + |f.exits|
  {
    || (pc == f.End() && at == Place(items, |f.ds|))
    || exists j :: 0 <= j < |f.exits| && f.exits[j] == pc && at == Place(items, |f.ds| + j)
  }

  /** One interpreter step inside the fragment, on flags that permit it. */
  ghost predicate StepsInside(f: Fragment, s: Isa.Cpu, t: Isa.Cpu) {
    && Find(f.ds, s.pc).Some? && Find(f.ds, s.pc).value < |f.ds|
    && !f.ds[Find(f.ds, s.pc).value].op.Rts?
    && Isa.Current(Shipped(), s).Valid()
    && Isa.Step(Shipped(), s) == Isa.Stepped(t)
  }

  ghost predicate Learns(f: Fragment, s: Isa.Cpu, know: Knowledge, know': Knowledge)
    requires Find(f.ds, s.pc).Some? && Find(f.ds, s.pc).value < |f.ds|
  {
    var op := f.ds[Find(f.ds, s.pc).value].op;
    know.Permits(op) && know' == know.After(op)
  }

  ghost predicate StepAt(f: Fragment, trace: seq<Isa.Cpu>, j: nat)
    requires j + 1 < |trace|
  {
    StepsInside(f, trace[j], trace[j + 1])
  }

  ghost predicate RunsInside(f: Fragment, trace: seq<Isa.Cpu>) {
    |trace| > 0 && forall j :: 0 <= j < |trace| - 1 ==> StepAt(f, trace, j)
  }

  ghost predicate LearnsAt(f: Fragment, trace: seq<Isa.Cpu>, knows: seq<Knowledge>, j: nat)
    requires j + 1 < |trace| == |knows|
  {
    StepsInside(f, trace[j], trace[j + 1]) && Learns(f, trace[j], knows[j], knows[j + 1])
  }

  /** A run whose every step is permitted by the knowledge gathered so far. */
  ghost predicate Disciplined(f: Fragment, trace: seq<Isa.Cpu>, knows: seq<Knowledge>) {
    && |knows| == |trace| > 0
    && forall j :: 0 <= j < |trace| - 1 ==> LearnsAt(f, trace, knows, j)
  }

  // ----- one instruction -----

  lemma InstructionEncoded(f: Fragment, k: nat, z: Z80Interpreter.Z80)
    requires Compilable(f) && k < |f.ds| && z.pc == Place(f.Items(), k)
    ensures Resolves(f.Ops(), f.LabelMap())
    ensures Encoded(f.ds[k].op, Code(f), f.LabelMap(), z)
    ensures Place(f.Items(), k + 1) == z.pc + Width(LiftOp(f.ds[k].op))
  {
    ResolvesIff(f);
    OpsAreItems(f);
    ItemBytes(f.Items(), k, f.LabelMap());
    assert f.Items()[k] == f.InstructionItem(k);
  }

  lemma TargetStands(f: Fragment, k: nat)
    requires Compilable(f) && k < |f.ds| && f.ds[k].op.IsBranch()
    ensures AutoLabel(f.ds[k].op.target) in f.LabelMap()
    ensures Stands(f, f.ds[k].op.target, f.LabelMap()[AutoLabel(f.ds[k].op.target)])
  {
    var t := f.ds[k].op.target;
    var j := TargetItem(f, k);
    LabelMapMatches(f);
    LabelIsPlace(f, f.Items(), f.LabelMap(), j, AutoLabel(t));
    if j < |f.ds| {
      FindUnique(f, j);
    } else {
      assert f.exits[j - |f.ds|] == t && t in f.exits;
      FindWithin(f, t);
    }
  }

  lemma NextStands(f: Fragment, k: nat, next: Address)
    requires Valid(f) && k < |f.ds|
    requires next == if k + 1 < |f.ds| then f.ds[k + 1].pc else f.End()
    ensures Stands(f, next, Place(f.Items(), k + 1))
  {
    if k + 1 < |f.ds| {
      InstructionStands(f, k + 1);
    } else {
      EndStands(f);
    }
  }

  lemma NextPc(f: Fragment, k: nat)
    requires Valid(f) && k < |f.ds|
    ensures f.ds[k].pc + f.ds[k].op.Size() == if k + 1 < |f.ds| then f.ds[k + 1].pc else f.End()
    ensures f.ds[k].pc + f.ds[k].op.Size() < 0x1_0000
  {
    assert DecodedAt(f.bytes, f.start, f.ds, k);
  }

  lemma InstructionStands(f: Fragment, k: nat)
    requires Valid(f) && k < |f.ds|
    ensures Stands(f, f.ds[k].pc, Place(f.Items(), k))
  {
    FindUnique(f, k);
  }

  lemma EndStands(f: Fragment)
    requires Valid(f)
    ensures Stands(f, f.End(), Place(f.Items(), |f.ds|))
  {
    FindWithin(f, f.End());
  }

  ghost predicate Loaded(f: Fragment, bus: Isa.Bus) {
    CodeIn(f.bytes, f.start, bus) && 256 <= bus.romStart
  }

  lemma MeaningKeepsCode(f: Fragment, op: DecodedOp, m: Isa.Machine, next: Address)
    requires 0x8000 <= f.start && Loaded(f, m.bus)
    ensures Loaded(f, Meaning(op, m, next).m.bus)
  {
  }

  /** The place a branch at `k` jumps to. */
  ghost function BranchPlace(f: Fragment, op: DecodedOp): Address {
    if op.IsBranch() && AutoLabel(op.target) in f.LabelMap() then f.LabelMap()[AutoLabel(op.target)] else 0
  }

  lemma CodeStep(f: Fragment, k: nat, z: Z80Interpreter.Z80, loadSetsZero: bool)
    requires Compilable(f) && Resolves(f.Ops(), f.LabelMap()) && k < |f.ds| && z.pc == Place(f.Items(), k)
    ensures Z80Interpreter.Step(Code(f), loadSetsZero, z)
            == if f.ds[k].op.Rts? then Z80Interpreter.Returned(z)
               else Z80Interpreter.Running(Lowered(f.ds[k].op, loadSetsZero, z, BranchPlace(f, f.ds[k].op)))
  {
    InstructionEncoded(f, k, z);
    EncodedStep(f.ds[k].op, Code(f), f.LabelMap(), loadSetsZero, z);
  }

  lemma SourceStep(f: Fragment, k: nat, s: Isa.Cpu)
    requires Valid(f) && Loaded(f, s.m.bus) && k < |f.ds| && s.pc == f.ds[k].pc
    ensures s.pc + f.ds[k].op.Size() < 0x1_0000 && Isa.Current(Shipped(), s).Valid()
    ensures Isa.Step(Shipped(), s) == Isa.Stepped(Meaning(f.ds[k].op, s.m, s.pc + f.ds[k].op.Size()))
  {
    assert DecodedAt(f.bytes, f.start, f.ds, k);
    StepIsMeaning(f.bytes, f.start, s, f.ds[k]);
  }

  lemma BranchStands(f: Fragment, k: nat)
    requires Compilable(f) && k < |f.ds| && f.ds[k].op.IsBranch()
    ensures Stands(f, f.ds[k].op.target, BranchPlace(f, f.ds[k].op))
  {
    TargetStands(f, k);
  }

  lemma MeaningPc(op: DecodedOp, m: Isa.Machine, next: Address)
    requires !op.Rts?
    ensures Meaning(op, m, next).pc == if op.IsBranch() && Taken(op, m.f) then op.target else next
  {
  }

  /** Either way out of instruction `k` has its place. */
  lemma WayOutStands(f: Fragment, k: nat, taken: bool, pc: Address)
    requires Compilable(f) && k < |f.ds| && (taken ==> f.ds[k].op.IsBranch())
    requires pc == if taken then f.ds[k].op.target else f.ds[k].pc + f.ds[k].op.Size()
    ensures Stands(f, pc, if taken then BranchPlace(f, f.ds[k].op) else Place(f.Items(), k + 1))
  {
    if taken {
      BranchStands(f, k);
    } else {
      NextPc(f, k);
      NextStands(f, k, pc);
    }
  }

  /** Wherever instruction `k` goes, the lowered instruction goes to the matching place. */
  lemma SuccessorStands(f: Fragment, k: nat, m: Isa.Machine)
    requires Compilable(f) && k < |f.ds| && !f.ds[k].op.Rts?
    ensures f.ds[k].pc + f.ds[k].op.Size() < 0x1_0000
    ensures var op := f.ds[k].op;
            Stands(f, Meaning(op, m, f.ds[k].pc + op.Size()).pc,
                   if op.IsBranch() && Taken(op, m.f) then BranchPlace(f, op) else Place(f.Items(), k + 1))
  {
    var op := f.ds[k].op;
    NextPc(f, k);
    MeaningPc(op, m, f.ds[k].pc + op.Size());
    WayOutStands(f, k, op.IsBranch() && Taken(op, m.f), Meaning(op, m, f.ds[k].pc + op.Size()).pc);
  }

  lemma PlaceNext(f: Fragment, k: nat)
    requires k < |f.ds|
    ensures Place(f.Items(), k + 1) == Place(f.Items(), k) + Width(LiftOp(f.ds[k].op))
  {
    assert f.Items()[k] == f.InstructionItem(k);
  }

  /** Both machines stand at matching places with related data, and the source code is intact. */
  ghost predicate Synced(f: Fragment, know: Knowledge, s: Isa.Cpu, z: Z80Interpreter.Z80) {
    Loaded(f, s.m.bus) && Related(know, s.m, z) && Stands(f, s.pc, z.pc)
  }

  /** What it means to be in step at an instruction of the fragment. */
  lemma InStepAt(f: Fragment, code: seq<Byte>, s: Isa.Cpu, t: Isa.Cpu, know: Knowledge, know': Knowledge, z: Z80Interpreter.Z80)
    returns (k: nat)
    requires CompilesTo(f, code) && Synced(f, know, s, z)
    requires StepsInside(f, s, t) && Learns(f, s, know, know')
    ensures k < |f.ds| && s.pc == f.ds[k].pc && !f.ds[k].op.Rts? && z.pc == Place(f.Items(), k)
    ensures Compilable(f) && Resolves(f.Ops(), f.LabelMap()) && code == Code(f)
    ensures Loaded(f, s.m.bus) && Related(know, s.m, z) && know.Permits(f.ds[k].op) && know' == know.After(f.ds[k].op)
    ensures Isa.Current(Shipped(), s).Valid() && Isa.Step(Shipped(), s) == Isa.Stepped(t)
  {
    FindIs(f.ds, s.pc);
    k := Find(f.ds, s.pc).value;
  }

  /** Instruction `k`, on any related data, is matched by one Z80 step. */
  lemma MatchedStep(f: Fragment, k: nat, m: Isa.Machine, know: Knowledge, z: Z80Interpreter.Z80, loadSetsZero: bool, next: Address)
    returns (z': Z80Interpreter.Z80)
    requires Compilable(f) && Resolves(f.Ops(), f.LabelMap()) && k < |f.ds| && !f.ds[k].op.Rts?
    requires 0x8000 <= f.start && 256 <= m.bus.romStart
    requires z.pc == Place(f.Items(), k) && Loaded(f, m.bus) && Related(know, m, z) && know.Permits(f.ds[k].op)
    requires next == f.ds[k].pc + f.ds[k].op.Size()
    ensures Z80Interpreter.Step(Code(f), loadSetsZero, z) == Z80Interpreter.Running(z')
    ensures Synced(f, know.After(f.ds[k].op), Meaning(f.ds[k].op, m, next), z')
  {
    hide Loaded, Related, Stands, Meaning, Lowered, BranchPlace, Compilable, Code, Resolves, Z80Interpreter.Step,
         Fragment.Items, Width, LiftOp;
    var op := f.ds[k].op;
    var place := BranchPlace(f, op);
    CodeStep(f, k, z, loadSetsZero);
    SuccessorStands(f, k, m);
    PlaceNext(f, k);
    z' := Lowered(op, loadSetsZero, z, place);
    PermittedSimulates(op, know, m, z, loadSetsZero, place, next);
    MeaningKeepsCode(f, op, m, next);
  }

  /** One 6502 step inside the fragment is matched by one Z80 step. */
  lemma InstructionSimulates(f: Fragment, code: seq<Byte>, s: Isa.Cpu, t: Isa.Cpu, know: Knowledge, know': Knowledge,
                             z: Z80Interpreter.Z80, loadSetsZero: bool) returns (z': Z80Interpreter.Z80)
    requires CompilesTo(f, code) && Synced(f, know, s, z)
    requires StepsInside(f, s, t) && Learns(f, s, know, know')
    ensures Z80Interpreter.Step(code, loadSetsZero, z) == Z80Interpreter.Running(z') && Synced(f, know', t, z')
  {
    hide Synced, StepsInside, Learns, Related, Meaning, Code, Resolves, Fragment.Items, Z80Interpreter.Step, Isa.Step;
    var k := InStepAt(f, code, s, t, know, know', z);
    SourceStep(f, k, s);
    z' := MatchedStep(f, k, s.m, know, z, loadSetsZero, s.pc + f.ds[k].op.Size());
  }

  // ----- whole runs -----

  lemma {:induction false} RunOneMore(code: seq<Byte>, loadSetsZero: bool, z0: Z80Interpreter.Z80, n: nat, z: Z80Interpreter.Z80)
    requires Z80Interpreter.Run(code, loadSetsZero, z0, n) == Z80Interpreter.Running(z)
    ensures Z80Interpreter.Run(code, loadSetsZero, z0, n + 1) == Z80Interpreter.Step(code, loadSetsZero, z)
    decreases n
  {
    if n > 0 {
      RunOneMore(code, loadSetsZero, Z80Interpreter.Step(code, loadSetsZero, z0).z, n - 1, z);
    }
  }

  /**
   However long the 6502 runs inside the fragment on permitted flags, the compiled
   code has run equally many steps and holds the same accumulator and zero page.
   */
  lemma {:induction false} FragmentSimulates(f: Fragment, code: seq<Byte>, trace: seq<Isa.Cpu>, knows: seq<Knowledge>, n: nat,
                                             z0: Z80Interpreter.Z80, loadSetsZero: bool)
    returns (z: Z80Interpreter.Z80)
    requires CompilesTo(f, code) && Disciplined(f, trace, knows) && n < |trace|
    requires Synced(f, knows[0], trace[0], z0)
    ensures Z80Interpreter.Run(code, loadSetsZero, z0, n) == Z80Interpreter.Running(z)
    ensures Synced(f, knows[n], trace[n], z)
    decreases n
  {
    hide Synced, Disciplined, CompilesTo;
    if n == 0 {
      z := z0;
    } else {
      var mid := FragmentSimulates(f, code, trace, knows, n - 1, z0, loadSetsZero);
      z := TraceStepSimulates(f, code, trace, knows, n - 1, mid, loadSetsZero);
      RunOneMore(code, loadSetsZero, z0, n - 1, mid);
    }
  }

  lemma TraceStepSimulates(f: Fragment, code: seq<Byte>, trace: seq<Isa.Cpu>, knows: seq<Knowledge>, n: nat,
                           z: Z80Interpreter.Z80, loadSetsZero: bool) returns (z': Z80Interpreter.Z80)
    requires CompilesTo(f, code) && Disciplined(f, trace, knows) && n + 1 < |trace| && Synced(f, knows[n], trace[n], z)
    ensures Z80Interpreter.Step(code, loadSetsZero, z) == Z80Interpreter.Running(z')
    ensures Synced(f, knows[n + 1], trace[n + 1], z')
  {
    assert LearnsAt(f, trace, knows, n);
    z' := InstructionSimulates(f, code, trace[n], trace[n + 1], knows[n], knows[n + 1], z, loadSetsZero);
  }

  /**
   The compiled code returns exactly where the 6502 fragment returns or has left for an exit
   stub; it runs off its end exactly when the source falls off a slice without exits.
   */
  lemma EndsTogether(f: Fragment, pc: Address, z: Z80Interpreter.Z80, loadSetsZero: bool)
    requires Compilable(f) && Resolves(f.Ops(), f.LabelMap()) && Stands(f, pc, z.pc)
    ensures var here := Find(f.ds, pc);
            var step := Z80Interpreter.Step(Code(f), loadSetsZero, z);
            && (here.Some? && here.value < |f.ds| && f.ds[here.value].op.Rts? ==> step == Z80Interpreter.Returned(z))
            && (here.Some? && here.value < |f.ds| && !f.ds[here.value].op.Rts? ==> step.Running?)
            && (here.None? && f.exits != [] ==> step == Z80Interpreter.Returned(z))
            && (here.None? && f.exits == [] ==> step == Z80Interpreter.Fault)
  {
    var here := Find(f.ds, pc);
    FindIs(f.ds, pc);
    if here.Some? {
      CodeStep(f, here.value, z, loadSetsZero);
    } else if f.exits == [] {
      OpsAreItems(f);
      CodeEnds(f.Items(), f.LabelMap());
    } else {
      var j := StubStood(f, f.Items(), pc, z.pc);
      StubReturns(f, j, z, loadSetsZero);
    }
  }

  lemma StubStood(f: Fragment, items: seq<Item>, pc: Address, at: nat) returns (j: nat)
    requires |items| == |f.ds| + |f.exits| && f.exits != [] && StandsOutside(f, items, pc, at)
    ensures j < |f.exits| && at == Place(items, |f.ds| + j)
  {
    j := 0;
    if !(pc == f.End() && at == Place(items, |f.ds|)) {
      j :| 0 <= j < |f.exits| && f.exits[j] == pc && at == Place(items, |f.ds| + j);
    }
  }

  lemma StubCode(f: Fragment, j: nat)
    requires Resolves(f.Ops(), f.LabelMap()) && j < |f.exits|
    ensures Place(f.Items(), |f.ds| + j) + 1 <= |Code(f)|
    ensures Code(f)[Place(f.Items(), |f.ds| + j)..Place(f.Items(), |f.ds| + j) + 1] == [0xC9]
  {
    hide Fragment.Items, Fragment.InstructionItem, Fragment.StubItem, Labels, Resolves;
    OpsAreItems(f);
    StubIsReturn(f, j);
    ReturnBytes(f.Items(), |f.ds| + j, f.LabelMap());
  }

  lemma StubIsReturn(f: Fragment, j: nat)
    requires j < |f.exits|
    ensures f.Items()[|f.ds| + j].op.Return?
  {
    assert f.Items()[|f.ds| + j] == f.StubItem(j);
  }

  lemma StubReturns(f: Fragment, j: nat, z: Z80Interpreter.Z80, loadSetsZero: bool)
    requires Resolves(f.Ops(), f.LabelMap()) && j < |f.exits| && z.pc == Place(f.Items(), |f.ds| + j)
    ensures Z80Interpreter.Step(Code(f), loadSetsZero, z) == Z80Interpreter.Returned(z)
  {
    StubCode(f, j);
    SliceOf1(Code(f), z.pc, 0xC9);
  }

  // ----- a static check -----

  /** `a` tells at least as much as `b`. */
  predicate AtLeast(a: Knowledge, b: Knowledge) {
    && (a.carry == b.carry || b.carry.Unknown? || (a.carry.Clear? && b.carry.Same?))
    && (b.zeroValid ==> a.zeroValid)
  }

  lemma AtLeastPermits(a: Knowledge, b: Knowledge, op: DecodedOp)
    requires AtLeast(a, b) && b.Permits(op)
    ensures a.Permits(op) && AtLeast(a.After(op), b.After(op))
  {
  }

  /** An annotation of every instruction that the instruction permits and its successors in the fragment inherit. */
  ghost predicate WellTyped(f: Fragment, types: seq<Knowledge>) {
    && |types| == |f.ds|
    && forall k {:trigger f.ds[k]} :: 0 <= k < |f.ds| && !f.ds[k].op.Rts? ==>
        && types[k].Permits(f.ds[k].op)
        && (k + 1 < |f.ds| ==> AtLeast(types[k].After(f.ds[k].op), types[k + 1]))
        && (f.ds[k].op.IsBranch() ==> Inherits(f, types, f.ds[k].op.target, types[k].After(f.ds[k].op)))
  }

  ghost predicate Inherits(f: Fragment, types: seq<Knowledge>, pc: Address, know: Knowledge)
    requires |types| == |f.ds|
  {
    var at := Find(f.ds, pc);
    at.Some? && at.value < |f.ds| ==> AtLeast(know, types[at.value])
  }

  lemma StepInherits(f: Fragment, types: seq<Knowledge>, s: Isa.Cpu, t: Isa.Cpu, know: Knowledge)
    requires Valid(f) && Loaded(f, s.m.bus) && StepsInside(f, s, t) && WellTyped(f, types) && Inherits(f, types, s.pc, know)
    ensures var op := f.ds[Find(f.ds, s.pc).value].op;
            know.Permits(op) && Inherits(f, types, t.pc, know.After(op)) && Loaded(f, t.m.bus)
  {
    FindIs(f.ds, s.pc);
    var k := Find(f.ds, s.pc).value;
    var op := f.ds[k].op;
    assert f.ds[k] == f.ds[k];
    AtLeastPermits(know, types[k], op);
    SourceStep(f, k, s);
    var next: Address := s.pc + op.Size();
    MeaningKeepsCode(f, op, s.m, next);
    SuccessorInherits(f, types, k, s.m, next);
    AtLeastTransfers(f, types, t.pc, know.After(op), types[k].After(op));
  }

  lemma SuccessorInherits(f: Fragment, types: seq<Knowledge>, k: nat, m: Isa.Machine, next: Address)
    requires Valid(f) && WellTyped(f, types) && k < |f.ds| && !f.ds[k].op.Rts? && next == f.ds[k].pc + f.ds[k].op.Size()
    ensures Inherits(f, types, Meaning(f.ds[k].op, m, next).pc, types[k].After(f.ds[k].op))
  {
    MeaningPc(f.ds[k].op, m, next);
    NextInherits(f, types, k);
  }

  lemma NextInherits(f: Fragment, types: seq<Knowledge>, k: nat)
    requires Valid(f) && WellTyped(f, types) && k < |f.ds| && !f.ds[k].op.Rts?
    ensures f.ds[k].pc + f.ds[k].op.Size() < 0x1_0000
    ensures Inherits(f, types, f.ds[k].pc + f.ds[k].op.Size(), types[k].After(f.ds[k].op))
  {
    assert DecodedAt(f.bytes, f.start, f.ds, k);
    if k + 1 < |f.ds| {
      FindUnique(f, k + 1);
    } else {
      FindWithin(f, f.ds[k].pc + f.ds[k].op.Size());
    }
  }

  lemma AtLeastTransfers(f: Fragment, types: seq<Knowledge>, pc: Address, a: Knowledge, b: Knowledge)
    requires |types| == |f.ds| && AtLeast(a, b) && Inherits(f, types, pc, b)
    ensures Inherits(f, types, pc, a)
  {
  }

  /** Every run of a well-typed fragment is disciplined, whatever path it takes. */
  lemma {:induction false} WellTypedIsDisciplined(f: Fragment, types: seq<Knowledge>, trace: seq<Isa.Cpu>, know: Knowledge)
    returns (knows: seq<Knowledge>)
    requires Valid(f) && WellTyped(f, types) && RunsInside(f, trace)
    requires Loaded(f, trace[0].m.bus) && Inherits(f, types, trace[0].pc, know)
    ensures Disciplined(f, trace, knows) && knows[0] == know
    ensures Inherits(f, types, trace[|trace| - 1].pc, knows[|trace| - 1]) && Loaded(f, trace[|trace| - 1].m.bus)
    decreases |trace|
  {
    hide WellTyped, Valid, Loaded, Inherits;
    if |trace| == 1 {
      knows := [know];
    } else {
      var n := |trace| - 1;
      var s, t := trace[n - 1], trace[n];
      TracePrefix(f, trace);
      var before := trace[..n];
      assert before[0] == trace[0] && before[n - 1] == s;
      var earlier := WellTypedIsDisciplined(f, types, before, know);
      var learnt := LearnStep(f, types, s, t, earlier[n - 1]);
      knows := earlier + [learnt];
      DisciplineExtends(f, trace, before, earlier, learnt);
    }
  }

  lemma LearnStep(f: Fragment, types: seq<Knowledge>, s: Isa.Cpu, t: Isa.Cpu, know: Knowledge) returns (learnt: Knowledge)
    requires Valid(f) && Loaded(f, s.m.bus) && StepsInside(f, s, t) && WellTyped(f, types) && Inherits(f, types, s.pc, know)
    ensures Learns(f, s, know, learnt) && Inherits(f, types, t.pc, learnt) && Loaded(f, t.m.bus)
  {
    StepInherits(f, types, s, t, know);
    learnt := know.After(f.ds[Find(f.ds, s.pc).value].op);
  }

  lemma TracePrefix(f: Fragment, trace: seq<Isa.Cpu>)
    requires RunsInside(f, trace) && |trace| > 1
    ensures RunsInside(f, trace[..|trace| - 1]) && StepAt(f, trace, |trace| - 2)
  {
    var n := |trace| - 1;
    forall j | 0 <= j < n - 1
      ensures StepAt(f, trace[..n], j)
    {
      assert StepAt(f, trace, j);
    }
  }

  lemma DisciplineExtends(f: Fragment, trace: seq<Isa.Cpu>, before: seq<Isa.Cpu>, earlier: seq<Knowledge>, learnt: Knowledge)
    requires |trace| > 1 && before == trace[..|trace| - 1] && Disciplined(f, before, earlier)
    requires StepAt(f, trace, |trace| - 2) && Learns(f, trace[|trace| - 2], earlier[|trace| - 2], learnt)
    ensures Disciplined(f, trace, earlier + [learnt])
  {
    var n := |trace| - 1;
    forall j | 0 <= j < n
      ensures LearnsAt(f, trace, earlier + [learnt], j)
    {
      if j < n - 1 {
        assert LearnsAt(f, before, earlier, j);
      }
    }
  }
}
