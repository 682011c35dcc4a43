/**
 The lifted routine simulates the interpreter: after every instruction the
 intermediate representation either stands at the same address with the same
 machine, or has stopped and its stop names the interpreter's address.
 */
module RoutineSimulation {
  import opened Bytes
  import opened Cpu6502
  import opened Isa
  import opened Ir
  import opened Lifter
  import opened LiftRange
  import opened Concatenation

  /** A lifted range: the walk's items and the addresses that get labels. */
  datatype Lifted = Lifted(image: Image, opts: LiftOptions, labelled: set<Address>, items: seq<Item>) {
    ghost predicate Valid() {
      image.Valid() && Decoded(image, opts, items) && Laid()
    }

    /** The part of validity that execution relies on. */
    ghost predicate Laid() {
      && ValidItems(items) && FallsThrough(opts, items) && NoWrap(items) && Increasing(items)
      && (forall k :: 0 <= k < |items| ==> InRange(opts, items[k].Pc()))
      && EntryNameIsClean()
      && items != [] && items[0].Code? && items[0].Pc() == opts.start
    }

    /** The caller's name for the entry is not the automatic label of some other address. */
    ghost predicate EntryNameIsClean() {
      forall a: Address :: LabelFor(a, opts) == opts.entryName ==> a == opts.start
    }

    function Ops(): seq<Op>
      requires ValidItems(items)
    {
      [Label(opts.entryName)] + Flatten(opts, labelled, items)
    }

    function End(): Address {
      CodeEnd(items, opts.start)
    }
  }

  /** The address after the last instruction among the items. */
  function CodeEnd(items: seq<Item>, start: Address): Address {
    if items == [] then start
    else if items[|items| - 1].Code? then WrapAddress(items[|items| - 1].insn.pc + items[|items| - 1].insn.size)
    else CodeEnd(items[..|items| - 1], start)
  }

  predicate NoWrap(items: seq<Item>) {
    forall k :: 0 <= k < |items| && items[k].Code? ==> items[k].insn.pc + items[k].insn.size <= 0xFFFF
  }

  // ----- positions of items in the operation list -----

  function ItemBlocks(l: Lifted): seq<seq<Op>>
    requires ValidItems(l.items)
  {
    Blocks(l.opts, l.labelled, l.items)
  }

  /** Where execution stands when it is about to run item `k`. */
  function Position(l: Lifted, k: nat): nat
    requires ValidItems(l.items) && k <= |l.items|
  {
    1 + Offset(ItemBlocks(l), k)
  }

  lemma ItemBlock(l: Lifted, k: nat)
    requires ValidItems(l.items) && k < |l.items|
    ensures Stands(l.Ops(), Position(l, k), ItemBlocks(l)[k])
    ensures Position(l, k + 1) == Position(l, k) + |ItemBlocks(l)[k]|
  {
    hide ItemOps;
    BlockAfter(l.Ops(), Label(l.opts.entryName), ItemBlocks(l), k);
  }

  lemma FirstOfBlock(l: Lifted, k: nat)
    requires ValidItems(l.items) && k < |l.items| && ItemBlocks(l)[k] != []
    ensures Position(l, k) < |l.Ops()| && l.Ops()[Position(l, k)] == ItemBlocks(l)[k][0]
  {
    hide ItemOps;
    FirstAfter(l.Ops(), Label(l.opts.entryName), ItemBlocks(l), k);
  }

  // ----- labels -----

  /** Item `k` carries its address label. */
  predicate Carries(l: Lifted, k: nat)
    requires k < |l.items|
  {
    l.items[k].Code? && LabelOps(l.opts, l.labelled, l.items[k].Pc()) != []
  }

  /** A label definition in the routine is the entry's or stands at the start of the item it names. */
  lemma LabelPosition(l: Lifted, i: nat, name: string) returns (k: nat)
    requires ValidItems(l.items) && i < |l.Ops()| && l.Ops()[i] == Label(name)
    ensures k <= |l.items|
    ensures i == 0 ==> name == l.opts.entryName
    ensures i > 0 ==> k < |l.items| && i == Position(l, k) && Carries(l, k) && name == LabelFor(l.items[k].Pc(), l.opts)
  {
    k := 0;
    if i > 0 {
      var d;
      k, d := Locate(ItemBlocks(l), i - 1);
      assert l.Ops()[i] == ItemBlocks(l)[k][d];
      BlockLabels(l.opts, l.labelled, l.items[k], d);
    }
  }

  /** In one item's block only the first operation can be a label, and it is the item's own. */
  lemma BlockLabels(opts: LiftOptions, labelled: set<Address>, item: Item, d: nat)
    requires item.Code? ==> item.insn.Valid()
    requires d < |ItemOps(opts, labelled, item)|
    ensures ItemOps(opts, labelled, item)[d].Label? ==>
              && d == 0 && item.Code? && LabelOps(opts, labelled, item.Pc()) != []
              && ItemOps(opts, labelled, item)[d] == Label(LabelFor(item.Pc(), opts))
  {
    if item.Code? {
      var insn := item.insn;
      var a, b, c, e := LabelOps(opts, labelled, insn.pc), [Source(insn.pc, insn.size)], SiteOps(opts, insn.pc), LiftInsn(insn, opts);
      Part(a, b, c, e, d);
    }
  }

  /** An element of four concatenated lists comes from one of them. */
  lemma Part(a: seq<Op>, b: seq<Op>, c: seq<Op>, e: seq<Op>, d: nat)
    requires d < |a + b + c + e|
    ensures (a + b + c + e)[d] == if d < |a| then a[d]
                                  else if d < |a| + |b| then b[d - |a|]
                                  else if d < |a| + |b| + |c| then c[d - |a| - |b|]
                                  else e[d - |a| - |b| - |c|]
  {
  }

  lemma PcsAreDistinct(items: seq<Item>, j: nat, k: nat)
    requires Increasing(items) && j < |items| && k < |items| && items[j].Pc() == items[k].Pc()
    ensures j == k
  {
  }

  /** No label is defined twice. */
  lemma LabelsAreUnique(l: Lifted, i: nat, j: nat)
    requires l.Valid() && i < |l.Ops()| && j < |l.Ops()|
    requires l.Ops()[i].Label? && l.Ops()[i] == l.Ops()[j]
    ensures i == j
  {
    var name := l.Ops()[i].name;
    var k := LabelPosition(l, i, name);
    var k' := LabelPosition(l, j, name);
    if i > 0 && j > 0 {
      LabelForInjective(l.items[k].Pc(), l.items[k'].Pc(), l.opts);
      PcsAreDistinct(l.items, k, k');
    }
  }

  /** Item `k` is an instruction at `t` that carries its label. */
  predicate Defines(l: Lifted, k: nat, t: Address) {
    k < |l.items| && Carries(l, k) && l.items[k].Pc() == t
  }

  /** Address `t` can be entered by a label: it starts the routine, or is an emitted instruction with a label. */
  ghost predicate Enterable(l: Lifted, t: Address) {
    LabelFor(t, l.opts) == l.opts.entryName || exists k: nat :: Defines(l, k, t)
  }

  /** The configuration is about to execute item `k`, the instruction at `s.pc`. */
  predicate StandsAt(l: Lifted, c: Config, s: Cpu, k: nat)
    requires ValidItems(l.items)
  {
    && c.At? && c.m == s.m && k < |l.items| && l.items[k].Code? && l.items[k].Pc() == s.pc
    && (c.index == Position(l, k) || (k == 0 && c.index == 0))
  }

  predicate Emits(items: seq<Item>, pc: Address) {
    exists k :: 0 <= k < |items| && items[k].Code? && items[k].Pc() == pc
  }

  /** Some emitted branch or jump names `t`. */
  ghost predicate BranchedTo(l: Lifted, t: Address) {
    exists k: nat :: BranchesTo(l, k, t)
  }

  predicate BranchesTo(l: Lifted, k: nat, t: Address) {
    && k < |l.items| && l.items[k].Code? && l.items[k].insn.BranchTarget() == Some(t)
    && (l.items[k].insn.IsBranch() || (l.items[k].insn.mnemonic.JMP? && l.items[k].insn.mode.Absolute?))
  }

  /** Why a routine may stop at `t`: nothing was emitted there, or a branch names it without finding a label. */
  ghost predicate Departs(l: Lifted, t: Address) {
    !Emits(l.items, t) || BranchedTo(l, t)
  }

  /** The configuration has left the routine for the interpreter's address, with the same machine; no label enters that address. */
  ghost predicate LeftFor(l: Lifted, c: Config, s: Cpu) {
    && c.Stopped? && c.m == s.m && !Enterable(l, s.pc)
    && match c.why
       case External(name) => name == LabelFor(s.pc, l.opts)
       case FellOff => s.pc == l.End()
       case Exit(_) => false
  }

  lemma EnterableIsDefined(l: Lifted, t: Address)
    requires l.Laid() && Enterable(l, t)
    ensures FindLabel(l.Ops(), LabelFor(t, l.opts)).Some?
  {
    var ops, name := l.Ops(), LabelFor(t, l.opts);
    if name == l.opts.entryName {
      assert ops[0] == Label(name);
    } else {
      var k: nat :| Defines(l, k, t);
      FirstOfBlock(l, k);
    }
  }

  /** The configuration has left for the interpreter's address, and for good reason. */
  ghost predicate Gone(l: Lifted, c: Config, s: Cpu) {
    LeftFor(l, c, s) && Departs(l, s.pc)
  }

  /** Standing at item `k`, or gone for good reason. */
  ghost predicate Follows(l: Lifted, c: Config, s: Cpu, k: nat)
    requires ValidItems(l.items)
  {
    StandsAt(l, c, s, k) || Gone(l, c, s)
  }

  /** Going to an address label reaches that instruction exactly when it can be entered; otherwise it stops naming it. */
  lemma GotoFollows(l: Lifted, t: Address, m: Machine) returns (k: nat)
    requires l.Laid()
    ensures var c := Goto(l.Ops(), LabelFor(t, l.opts), m);
            && (Enterable(l, t) ==> StandsAt(l, c, Cpu(t, m), k))
            && (!Enterable(l, t) ==> LeftFor(l, c, Cpu(t, m)))
  {
    var ops, name := l.Ops(), LabelFor(t, l.opts);
    k := 0;
    if Enterable(l, t) {
      EnterableIsDefined(l, t);
    }
    match FindLabel(ops, name) {
      case Some(i) =>
        k := LabelPosition(l, i, name);
        if i == 0 {
          k := 0;
        } else {
          LabelForInjective(t, l.items[k].Pc(), l.opts);
          assert Defines(l, k, t);
        }
      case None =>
    }
  }

  // ----- one instruction -----

  /** Instructions that stay inside translated code: no call, return, trap, dispatch or profiled site. */
  predicate Plain(insn: Instruction, opts: LiftOptions, m: Machine) {
    && insn.Valid()
    && FindEscape(opts.returnEscapes, insn.pc).None?
    && SiteOps(opts, insn.pc) == []
    && (Branches(insn.mnemonic) || (insn.mnemonic.JMP? && insn.mode.Absolute?) || Translated(insn, opts))
    && (IsRmwPair(insn.mnemonic) ==> Coherent(insn, m))
  }

  /** Labels and source markers have no effect. */
  lemma PrefixHasNoEffect(opts: LiftOptions, labelled: set<Address>, insn: Instruction, m: Machine)
    requires insn.Valid()
    ensures var prefix := LabelOps(opts, labelled, insn.pc) + [Source(insn.pc, insn.size)];
            AllSequential(prefix) && Effects(prefix, m) == m
  {
    var source := Source(insn.pc, insn.size);
    EffectsOfOne(source, m);
    if LabelOps(opts, labelled, insn.pc) != [] {
      var name := Label(LabelFor(insn.pc, opts));
      assert LabelOps(opts, labelled, insn.pc) + [source] == [name, source];
      EffectsOfTwo(name, source, m);
    }
  }

  function Markers(opts: LiftOptions, labelled: set<Address>, insn: Instruction): seq<Op> {
    LabelOps(opts, labelled, insn.pc) + [Source(insn.pc, insn.size)]
  }

  lemma BlockIsMarkersThenLift(opts: LiftOptions, labelled: set<Address>, insn: Instruction)
    requires insn.Valid() && SiteOps(opts, insn.pc) == []
    ensures ItemOps(opts, labelled, Code(insn)) == Markers(opts, labelled, insn) + LiftInsn(insn, opts)
  {
  }

  /** A straight instruction's block runs to its end. */
  lemma RunStraightBlock(ops: seq<Op>, at: nat, opts: LiftOptions, labelled: set<Address>, insn: Instruction, m: Machine)
    requires Plain(insn, opts, m) && Straight(insn.mnemonic)
    requires Stands(ops, at, ItemOps(opts, labelled, Code(insn)))
    ensures var n := |ItemOps(opts, labelled, Code(insn))|;
            RunOps(ops, At(at, m), n) == At(at + n, ExecuteStraight(insn, m))
  {
    BlockIsMarkersThenLift(opts, labelled, insn);
    PrefixHasNoEffect(opts, labelled, insn, m);
    LiftPreserves(insn, opts, m);
    EffectsAppend(Markers(opts, labelled, insn), LiftInsn(insn, opts), m);
    RunSequential(ops, at, m, ItemOps(opts, labelled, Code(insn)));
  }

  /** A block of markers and one operation comes down to that operation. */
  lemma RunToLast(ops: seq<Op>, at: nat, markers: seq<Op>, last: Op, m: Machine)
    requires Stands(ops, at, markers + [last])
    requires AllSequential(markers) && Effects(markers, m) == m
    ensures ops[at + |markers|] == last
    ensures RunOps(ops, At(at, m), |markers| + 1) == StepOp(ops, At(at + |markers|, m))
  {
    var block := markers + [last];
    assert ops[at..at + |markers|] == block[..|markers|] == markers;
    assert ops[at + |markers|] == block[|markers|] == last;
    RunSequential(ops, at, m, markers);
    RunOne(ops, At(at + |markers|, m));
    RunOpsAdd(ops, At(at, m), |markers|, 1);
  }

  /** A branch or jump block transfers, or falls to its end. */
  lemma RunTransferBlock(ops: seq<Op>, at: nat, opts: LiftOptions, labelled: set<Address>, insn: Instruction, m: Machine)
    requires Plain(insn, opts, m) && !Straight(insn.mnemonic)
    requires Stands(ops, at, ItemOps(opts, labelled, Code(insn)))
    ensures insn.BranchTarget().Some?
    ensures var n := |ItemOps(opts, labelled, Code(insn))|;
            RunOps(ops, At(at, m), n)
            == if Branches(insn.mnemonic) && !Taken(insn.mnemonic, m.f) then At(at + n, m)
               else Goto(ops, LabelFor(insn.BranchTarget().value, opts), m)
  {
    hide StepOp, ItemOps, Goto, LabelFor;
    var markers := Markers(opts, labelled, insn);
    BlockIsMarkersThenLift(opts, labelled, insn);
    PrefixHasNoEffect(opts, labelled, insn, m);
    TransferOp(insn, opts, m);
    RunToLast(ops, at, markers, LiftInsn(insn, opts)[0], m);
    TransferStep(ops, at + |markers|, insn, opts, m);
  }

  lemma HoleBlock(l: Lifted, k: nat)
    requires ValidItems(l.items) && k < |l.items| && l.items[k].Hole?
    ensures ItemBlocks(l)[k] == [Jmp(LabelFor(l.items[k].Pc(), l.opts))]
  {
  }

  lemma JumpStep(ops: seq<Op>, at: nat, name: string, m: Machine)
    requires at < |ops| && ops[at] == Jmp(name)
    ensures StepOp(ops, At(at, m)) == Goto(ops, name, m)
  {
  }

  /** At a data hole the routine jumps to the hole's label, which nothing defines. */
  lemma HoleStep(l: Lifted, k: nat, m: Machine)
    requires l.Laid() && k < |l.items| && l.items[k].Hole?
    ensures StepOp(l.Ops(), At(Position(l, k), m)) == Goto(l.Ops(), LabelFor(l.items[k].Pc(), l.opts), m)
  {
    HoleBlock(l, k);
    FirstOfBlock(l, k);
    JumpStep(l.Ops(), Position(l, k), LabelFor(l.items[k].Pc(), l.opts), m);
  }

  lemma EndStep(l: Lifted, m: Machine)
    requires ValidItems(l.items)
    ensures StepOp(l.Ops(), At(Position(l, |l.items|), m)) == Stopped(FellOff, m)
  {
    OffsetEnd(ItemBlocks(l));
  }

  lemma NothingPastTheEnd(l: Lifted, t: Address)
    requires l.Laid() && t >= l.opts.end
    ensures !Emits(l.items, t) && !Enterable(l, t)
  {
    assert InRange(l.opts, l.items[0].Pc());
    assert forall k: nat :: !Defines(l, k, t);
  }

  lemma NothingAtHole(l: Lifted, k: nat)
    requires l.Laid() && k < |l.items| && l.items[k].Hole?
    ensures !Emits(l.items, l.items[k].Pc())
  {
    forall j | 0 <= j < |l.items| && l.items[j].Code?
      ensures l.items[j].Pc() != l.items[k].Pc()
    {
      assert j < k ==> l.items[j].Pc() < l.items[k].Pc();
      assert k < j ==> l.items[k].Pc() < l.items[j].Pc();
    }
  }

  /** Execution falls out of item `k` to address `next`. */
  predicate FallsTo(l: Lifted, k: nat, next: Address) {
    k < |l.items| && l.items[k].Code? && !Stops(l.opts, l.items[k].insn) && next == l.items[k].insn.pc + l.items[k].insn.size
  }

  lemma FallOffEnd(l: Lifted, k: nat, next: Address, m: Machine)
    requires l.Laid() && k + 1 == |l.items| && FallsTo(l, k, next)
    ensures Follows(l, RunOps(l.Ops(), At(Position(l, k + 1), m), 1), Cpu(next, m), k + 1)
  {
    hide StepOp;
    EndIsNext(l, k);
    NothingPastTheEnd(l, next);
    EndStep(l, m);
    RunOne(l.Ops(), At(Position(l, k + 1), m));
    assert Gone(l, RunOps(l.Ops(), At(Position(l, k + 1), m), 1), Cpu(next, m));
  }

  lemma EndIsNext(l: Lifted, k: nat)
    requires l.Laid() && k + 1 == |l.items| && l.items[k].Code? && !Stops(l.opts, l.items[k].insn)
    ensures l.items[k].insn.pc + l.items[k].insn.size == l.End() >= l.opts.end
  {
    assert FallsAt(l.opts, l.items, k);
  }

  lemma FallIntoHole(l: Lifted, k: nat, at: Address, m: Machine) returns (k': nat)
    requires l.Laid() && k < |l.items| && l.items[k].Hole? && at == l.items[k].Pc()
    ensures Follows(l, RunOps(l.Ops(), At(Position(l, k), m), 1), Cpu(at, m), k')
  {
    HoleStep(l, k, m);
    NothingAtHole(l, k);
    RunOne(l.Ops(), At(Position(l, k), m));
    k' := GotoFollows(l, at, m);
  }

  lemma NextItem(l: Lifted, k: nat, next: Address)
    requires l.Laid() && k + 1 < |l.items| && FallsTo(l, k, next)
    ensures l.items[k + 1].Pc() == next
  {
    assert FallsAt(l.opts, l.items, k);
  }

  lemma FallOnto(l: Lifted, k: nat, next: Address, m: Machine)
    requires l.Laid() && k + 1 < |l.items| && FallsTo(l, k, next) && l.items[k + 1].Code?
    ensures Follows(l, RunOps(l.Ops(), At(Position(l, k + 1), m), 0), Cpu(next, m), k + 1)
  {
    NextItem(l, k, next);
    var c := At(Position(l, k + 1), m);
    assert RunOps(l.Ops(), c, 0) == c && StandsAt(l, c, Cpu(next, m), k + 1);
  }


  /** Falling out of item `k` reaches the next instruction in memory, or leaves for it. */
  lemma FallThrough(l: Lifted, k: nat, next: Address, m: Machine) returns (steps: nat, k': nat)
    requires l.Laid() && k < |l.items| && FallsTo(l, k, next)
    ensures Follows(l, RunOps(l.Ops(), At(Position(l, k + 1), m), steps), Cpu(next, m), k')
  {
    hide *;
    k' := k + 1;
    if k + 1 == |l.items| {
      FallOffEnd(l, k, next, m);
      steps := 1;
    } else if l.items[k + 1].Code? {
      FallOnto(l, k, next, m);
      steps := 0;
    } else {
      NextItem(l, k, next);
      k' := FallIntoHole(l, k + 1, next, m);
      steps := 1;
    }
  }

  /** The interpreter's successor of a plain instruction. */
  function Successor(insn: Instruction, opts: LiftOptions, m: Machine): Cpu
    requires Plain(insn, opts, m)
  {
    var next := WrapAddress(insn.pc + insn.size);
    if Straight(insn.mnemonic) then Cpu(next, ExecuteStraight(insn, m))
    else if Branches(insn.mnemonic) && !Taken(insn.mnemonic, m.f) then Cpu(next, m)
    else Cpu(insn.BranchTarget().value, m)
  }

  lemma PlainStep(insn: Instruction, opts: LiftOptions, m: Machine)
    requires Plain(insn, opts, m)
    ensures Execute(insn, m) == Stepped(Successor(insn, opts, m))
  {
  }

  lemma CondIsTaken(mn: Mnemonic, f: Flags)
    requires Branches(mn)
    ensures Holds(BranchCond(mn), f) <==> Taken(mn, f)
  {
  }

  lemma BranchOp(insn: Instruction, opts: LiftOptions)
    requires insn.Valid() && Branches(insn.mnemonic) && FindEscape(opts.returnEscapes, insn.pc).None?
    ensures insn.BranchTarget().Some?
    ensures LiftInsn(insn, opts) == [BranchIf(BranchCond(insn.mnemonic), LabelFor(insn.BranchTarget().value, opts))]
  {
  }

  lemma JumpOp(insn: Instruction, opts: LiftOptions)
    requires insn.Valid() && insn.mnemonic.JMP? && insn.mode.Absolute? && FindEscape(opts.returnEscapes, insn.pc).None?
    ensures insn.BranchTarget().Some?
    ensures LiftInsn(insn, opts) == [Jmp(LabelFor(insn.BranchTarget().value, opts))]
  {
  }

  /** The single operation a branch or jump becomes. */
  lemma TransferOp(insn: Instruction, opts: LiftOptions, m: Machine)
    requires Plain(insn, opts, m) && !Straight(insn.mnemonic)
    ensures insn.BranchTarget().Some?
    ensures var name := LabelFor(insn.BranchTarget().value, opts);
            LiftInsn(insn, opts) == if Branches(insn.mnemonic) then [BranchIf(BranchCond(insn.mnemonic), name)] else [Jmp(name)]
  {
    if Branches(insn.mnemonic) {
      BranchOp(insn, opts);
    } else {
      JumpOp(insn, opts);
    }
  }

  lemma TransferStep(ops: seq<Op>, at: nat, insn: Instruction, opts: LiftOptions, m: Machine)
    requires Plain(insn, opts, m) && !Straight(insn.mnemonic)
    requires at < |ops| && ops[at] == LiftInsn(insn, opts)[0]
    ensures insn.BranchTarget().Some?
    ensures StepOp(ops, At(at, m))
            == if Branches(insn.mnemonic) && !Taken(insn.mnemonic, m.f) then At(at + 1, m)
               else Goto(ops, LabelFor(insn.BranchTarget().value, opts), m)
  {
    TransferOp(insn, opts, m);
    if Branches(insn.mnemonic) {
      CondIsTaken(insn.mnemonic, m.f);
    } else {
      JumpStep(ops, at, LabelFor(insn.BranchTarget().value, opts), m);
    }
  }

  lemma FallingIsNotTerminating(insn: Instruction, opts: LiftOptions, m: Machine)
    requires Plain(insn, opts, m) && (Straight(insn.mnemonic) || Branches(insn.mnemonic))
    ensures !Stops(opts, insn)
  {
  }

  /** The instruction's block ran to its end: what remains is falling out of the item. */
  lemma SimulateFall(l: Lifted, k: nat, next: Address, start: Config, n: nat, m: Machine) returns (steps: nat, k': nat)
    requires l.Laid() && ValidItems(l.items) && k < |l.items| && FallsTo(l, k, next)
    requires RunOps(l.Ops(), start, n) == At(Position(l, k + 1), m)
    ensures Follows(l, RunOps(l.Ops(), start, steps), Cpu(next, m), k')
  {
    hide *;
    var b;
    b, k' := FallThrough(l, k, next, m);
    RunOpsAdd(l.Ops(), start, n, b);
    steps := n + b;
  }

  /** A straight item runs to the next position. */
  lemma RunStraightItem(l: Lifted, k: nat, m: Machine) returns (n: nat)
    requires ValidItems(l.items) && k < |l.items| && l.items[k].Code? && Plain(l.items[k].insn, l.opts, m)
    requires Straight(l.items[k].insn.mnemonic)
    ensures RunOps(l.Ops(), At(Position(l, k), m), n) == At(Position(l, k + 1), ExecuteStraight(l.items[k].insn, m))
  {
    ItemBlock(l, k);
    RunStraightBlock(l.Ops(), Position(l, k), l.opts, l.labelled, l.items[k].insn, m);
    n := |ItemBlocks(l)[k]|;
  }

  /** A branch or jump item transfers, or runs to the next position. */
  lemma RunTransferItem(l: Lifted, k: nat, m: Machine) returns (n: nat)
    requires ValidItems(l.items) && k < |l.items| && l.items[k].Code? && Plain(l.items[k].insn, l.opts, m)
    requires !Straight(l.items[k].insn.mnemonic)
    ensures l.items[k].insn.BranchTarget().Some?
    ensures var insn := l.items[k].insn;
            RunOps(l.Ops(), At(Position(l, k), m), n)
            == if Branches(insn.mnemonic) && !Taken(insn.mnemonic, m.f) then At(Position(l, k + 1), m)
               else Goto(l.Ops(), LabelFor(insn.BranchTarget().value, l.opts), m)
  {
    ItemBlock(l, k);
    RunTransferBlock(l.Ops(), Position(l, k), l.opts, l.labelled, l.items[k].insn, m);
    n := |ItemBlocks(l)[k]|;
  }

  lemma SuccessorByFalling(insn: Instruction, opts: LiftOptions, m: Machine)
    requires Plain(insn, opts, m) && insn.pc + insn.size <= 0xFFFF
    requires Straight(insn.mnemonic) || (Branches(insn.mnemonic) && !Taken(insn.mnemonic, m.f))
    ensures Successor(insn, opts, m)
            == Cpu(insn.pc + insn.size, if Straight(insn.mnemonic) then ExecuteStraight(insn, m) else m)
  {
  }

  /** What a straight item leaves behind: the interpreter's machine at the next position. */
  lemma StraightFalls(l: Lifted, k: nat, m: Machine) returns (n: nat, next: Address, m': Machine)
    requires l.Laid() && k < |l.items| && l.items[k].Code? && Plain(l.items[k].insn, l.opts, m)
    requires Straight(l.items[k].insn.mnemonic)
    ensures RunOps(l.Ops(), At(Position(l, k), m), n) == At(Position(l, k + 1), m')
    ensures FallsTo(l, k, next) && Successor(l.items[k].insn, l.opts, m) == Cpu(next, m')
  {
    next := l.items[k].insn.pc + l.items[k].insn.size;
    n := RunStraightItem(l, k, m);
    m' := ExecuteStraight(l.items[k].insn, m);
    FallingIsNotTerminating(l.items[k].insn, l.opts, m);
    SuccessorByFalling(l.items[k].insn, l.opts, m);
  }

  lemma SimulateStraight(l: Lifted, k: nat, m: Machine) returns (steps: nat, k': nat)
    requires l.Laid() && k < |l.items| && l.items[k].Code? && Plain(l.items[k].insn, l.opts, m)
    requires Straight(l.items[k].insn.mnemonic)
    ensures Follows(l, RunOps(l.Ops(), At(Position(l, k), m), steps), Successor(l.items[k].insn, l.opts, m), k')
  {
    hide StepOp, Gone, StandsAt, Plain;
    var n, next, m' := StraightFalls(l, k, m);
    steps, k' := SimulateFall(l, k, next, At(Position(l, k), m), n, m');
  }

  lemma RunUntakenItem(l: Lifted, k: nat, m: Machine) returns (n: nat)
    requires ValidItems(l.items) && k < |l.items| && l.items[k].Code? && Plain(l.items[k].insn, l.opts, m)
    requires Branches(l.items[k].insn.mnemonic) && !Taken(l.items[k].insn.mnemonic, m.f)
    ensures RunOps(l.Ops(), At(Position(l, k), m), n) == At(Position(l, k + 1), m)
  {
    n := RunTransferItem(l, k, m);
  }

  lemma UntakenFalls(l: Lifted, k: nat, m: Machine) returns (n: nat, next: Address)
    requires l.Laid() && k < |l.items| && l.items[k].Code? && Plain(l.items[k].insn, l.opts, m)
    requires Branches(l.items[k].insn.mnemonic) && !Taken(l.items[k].insn.mnemonic, m.f)
    ensures RunOps(l.Ops(), At(Position(l, k), m), n) == At(Position(l, k + 1), m)
    ensures FallsTo(l, k, next) && Successor(l.items[k].insn, l.opts, m) == Cpu(next, m)
  {
    next := l.items[k].insn.pc + l.items[k].insn.size;
    n := RunUntakenItem(l, k, m);
    FallingIsNotTerminating(l.items[k].insn, l.opts, m);
    SuccessorByFalling(l.items[k].insn, l.opts, m);
  }

  lemma SimulateUntaken(l: Lifted, k: nat, m: Machine) returns (steps: nat, k': nat)
    requires l.Laid() && k < |l.items| && l.items[k].Code? && Plain(l.items[k].insn, l.opts, m)
    requires Branches(l.items[k].insn.mnemonic) && !Taken(l.items[k].insn.mnemonic, m.f)
    ensures Follows(l, RunOps(l.Ops(), At(Position(l, k), m), steps), Successor(l.items[k].insn, l.opts, m), k')
  {
    hide StepOp, Gone, StandsAt, Plain;
    var n, next := UntakenFalls(l, k, m);
    steps, k' := SimulateFall(l, k, next, At(Position(l, k), m), n, m);
  }

  lemma SimulateTaken(l: Lifted, k: nat, m: Machine) returns (steps: nat, k': nat)
    requires l.Laid() && k < |l.items| && l.items[k].Code? && Plain(l.items[k].insn, l.opts, m)
    requires !Straight(l.items[k].insn.mnemonic)
    requires Branches(l.items[k].insn.mnemonic) ==> Taken(l.items[k].insn.mnemonic, m.f)
    ensures Follows(l, RunOps(l.Ops(), At(Position(l, k), m), steps), Successor(l.items[k].insn, l.opts, m), k')
  {
    steps := RunTransferItem(l, k, m);
    var t := l.items[k].insn.BranchTarget().value;
    k' := GotoFollows(l, t, m);
    assert BranchesTo(l, k, t);
  }

  /** Running one emitted plain instruction tracks the interpreter's step exactly. */
  lemma SimulateInstruction(l: Lifted, k: nat, m: Machine) returns (steps: nat, k': nat)
    requires l.Laid() && k < |l.items| && l.items[k].Code? && Plain(l.items[k].insn, l.opts, m)
    ensures Follows(l, RunOps(l.Ops(), At(Position(l, k), m), steps), Successor(l.items[k].insn, l.opts, m), k')
  {
    hide StepOp, Gone, StandsAt, Plain;
    if Straight(l.items[k].insn.mnemonic) {
      steps, k' := SimulateStraight(l, k, m);
    } else if Branches(l.items[k].insn.mnemonic) && !Taken(l.items[k].insn.mnemonic, m.f) {
      steps, k' := SimulateUntaken(l, k, m);
    } else {
      steps, k' := SimulateTaken(l, k, m);
    }
  }

  // ----- whole runs -----

  /** Writes never reach the read-only part of memory. */
  lemma StoreKeepsCode(image: Image, m: Machine, a: Address, v: Byte)
    requires CodeLoaded(image, m.bus)
    ensures CodeLoaded(image, m.Store(a, v).bus)
  {
  }

  lemma SuccessorKeepsCode(image: Image, insn: Instruction, opts: LiftOptions, m: Machine)
    requires CodeLoaded(image, m.bus) && Plain(insn, opts, m)
    ensures CodeLoaded(image, Successor(insn, opts, m).m.bus)
  {
    if Straight(insn.mnemonic) {
      var a, v := OnlyWrite(insn, m);
      StoreKeepsCode(image, m, a, v);
    }
  }

  /** The interpreter executes a plain instruction at `s` and arrives at `t`. */
  ghost predicate PlainStepTo(l: Lifted, s: Cpu, t: Cpu) {
    Plain(Current(l.image.table, s), l.opts, s.m) && Step(l.image.table, s) == Stepped(t)
  }

  ghost predicate StepsAt(l: Lifted, trace: seq<Cpu>, j: nat)
    requires j + 1 < |trace|
  {
    PlainStepTo(l, trace[j], trace[j + 1])
  }

  /** A run of the interpreter through plain instructions. */
  ghost predicate PlainRun(l: Lifted, trace: seq<Cpu>) {
    trace != [] && forall j :: 0 <= j < |trace| - 1 ==> StepsAt(l, trace, j)
  }

  /** An emitted instruction reached by the interpreter is the one the lifter decoded. */
  lemma StandingInstruction(l: Lifted, c: Config, s: Cpu, k: nat)
    requires l.Valid() && StandsAt(l, c, s, k) && CodeLoaded(l.image, s.m.bus)
    ensures Current(l.image.table, s) == l.items[k].insn
  {
    SameInstruction(l.image, s.m, s.pc);
  }

  /** Entering by the routine's own name passes one extra label. */
  lemma EnterFromTop(l: Lifted, c: Config, s: Cpu, k: nat) returns (steps: nat)
    requires l.Laid() && StandsAt(l, c, s, k)
    ensures RunOps(l.Ops(), c, steps) == At(Position(l, k), s.m)
  {
    if c.index == Position(l, k) {
      steps := 0;
    } else {
      steps := 1;
      RunOne(l.Ops(), c);
    }
  }

  lemma PlainSuccessor(l: Lifted, c: Config, s: Cpu, t: Cpu, k: nat)
    requires l.Valid() && StandsAt(l, c, s, k) && CodeLoaded(l.image, s.m.bus) && PlainStepTo(l, s, t)
    ensures k < |l.items| && l.items[k].Code? && Plain(l.items[k].insn, l.opts, s.m)
    ensures t == Successor(l.items[k].insn, l.opts, s.m) && CodeLoaded(l.image, t.m.bus)
  {
    StandingInstruction(l, c, s, k);
    var insn := l.items[k].insn;
    PlainStep(insn, l.opts, s.m);
    SuccessorKeepsCode(l.image, insn, l.opts, s.m);
  }

  /** One interpreter instruction from an emitted address is followed by the routine. */
  lemma FollowStep(l: Lifted, c: Config, s: Cpu, t: Cpu, k: nat) returns (steps: nat, k': nat)
    requires l.Valid() && l.Laid() && ValidItems(l.items)
    requires StandsAt(l, c, s, k) && CodeLoaded(l.image, s.m.bus) && PlainStepTo(l, s, t)
    ensures Follows(l, RunOps(l.Ops(), c, steps), t, k') && CodeLoaded(l.image, t.m.bus)
  {
    hide *;
    PlainSuccessor(l, c, s, t, k);
    var a := EnterFromTop(l, c, s, k);
    var b;
    b, k' := SimulateInstruction(l, k, s.m);
    RunOpsAdd(l.Ops(), c, a, b);
    steps := a + b;
  }

  lemma ExtendRun(l: Lifted, c0: Config, run: nat, c: Config, s: Cpu, t: Cpu, k: nat) returns (steps: nat, k': nat)
    requires l.Valid() && l.Laid() && ValidItems(l.items) && RunOps(l.Ops(), c0, run) == c && StandsAt(l, c, s, k) && CodeLoaded(l.image, s.m.bus)
    requires PlainStepTo(l, s, t)
    ensures run <= steps
    ensures Follows(l, RunOps(l.Ops(), c0, steps), t, k') && CodeLoaded(l.image, t.m.bus)
  {
    hide *;
    var more;
    more, k' := FollowStep(l, c, s, t, k);
    RunOpsAdd(l.Ops(), c0, run, more);
    steps := run + more;
  }

  /**
   After `steps` operations from `c0` the routine matches state `j` of the trace;
   it may be short of state `n` only because it has left for that state's address,
   which no label enters, and where nothing is emitted unless an emitted branch named it.
   */
  ghost predicate TracksTo(l: Lifted, c0: Config, trace: seq<Cpu>, n: nat, steps: nat, j: nat, k: nat)
    requires ValidItems(l.items)
  {
    && j <= n < |trace|
    && CodeLoaded(l.image, trace[j].m.bus)
    && Follows(l, RunOps(l.Ops(), c0, steps), trace[j], k)
    && (j < n ==> Gone(l, RunOps(l.Ops(), c0, steps), trace[j]))
  }

  /** How far the routine has run, which state of the trace it matches, and at which item. */
  datatype Mark = Mark(steps: nat, state: nat, item: nat)

  /** A mark for every state of the trace; from one to the next the routine only runs forward. */
  ghost predicate Tracks(l: Lifted, c0: Config, trace: seq<Cpu>, marks: seq<Mark>)
    requires ValidItems(l.items)
  {
    && |marks| == |trace|
    && (forall n :: 0 <= n < |marks| ==> MarkHolds(l, c0, trace, marks, n))
    && (forall n :: 0 < n < |marks| ==> Forward(marks[n - 1], marks[n]))
  }

  ghost predicate MarkHolds(l: Lifted, c0: Config, trace: seq<Cpu>, marks: seq<Mark>, n: nat)
    requires ValidItems(l.items) && n < |marks|
  {
    TracksTo(l, c0, trace, n, marks[n].steps, marks[n].state, marks[n].item)
  }

  predicate Forward(a: Mark, b: Mark) {
    a.steps <= b.steps && a.state <= b.state
  }

  /** By this mark the routine has gone. */
  ghost predicate GoneBy(l: Lifted, c0: Config, trace: seq<Cpu>, mark: Mark)
    requires ValidItems(l.items)
  {
    mark.state < |trace| && Gone(l, RunOps(l.Ops(), c0, mark.steps), trace[mark.state])
  }

  /** A routine that has not gone is at the trace's state. */
  lemma StandsOrGone(l: Lifted, c0: Config, trace: seq<Cpu>, n: nat, at: Mark)
    requires ValidItems(l.items) && TracksTo(l, c0, trace, n, at.steps, at.state, at.item)
    ensures GoneBy(l, c0, trace, at) || (at.state == n && StandsAt(l, RunOps(l.Ops(), c0, at.steps), trace[n], at.item))
    ensures CodeLoaded(l.image, trace[at.state].m.bus)
  {
  }

  lemma StepOfRun(l: Lifted, trace: seq<Cpu>, n: nat)
    requires PlainRun(l, trace) && n + 1 < |trace|
    ensures PlainStepTo(l, trace[n], trace[n + 1])
  {
    assert StepsAt(l, trace, n);
  }

  lemma StaysGone(l: Lifted, c0: Config, trace: seq<Cpu>, n: nat, at: Mark)
    requires ValidItems(l.items) && n + 1 < |trace| && TracksTo(l, c0, trace, n, at.steps, at.state, at.item)
    requires GoneBy(l, c0, trace, at)
    ensures TracksTo(l, c0, trace, n + 1, at.steps, at.state, at.item)
  {
  }

  lemma TrackOneMore(l: Lifted, c0: Config, trace: seq<Cpu>, n: nat, at: Mark) returns (next: Mark)
    requires l.Valid() && n + 1 < |trace| && PlainRun(l, trace) && TracksTo(l, c0, trace, n, at.steps, at.state, at.item)
    ensures TracksTo(l, c0, trace, n + 1, next.steps, next.state, next.item) && Forward(at, next)
  {
    var c := RunOps(l.Ops(), c0, at.steps);
    StandsOrGone(l, c0, trace, n, at);
    if GoneBy(l, c0, trace, at) {
      StaysGone(l, c0, trace, n, at);
      next := at;
    } else {
      StepOfRun(l, trace, n);
      next := ExtendMark(l, c0, trace, n, at, c);
    }
  }

  lemma ExtendMark(l: Lifted, c0: Config, trace: seq<Cpu>, n: nat, at: Mark, c: Config) returns (next: Mark)
    requires l.Valid() && n + 1 < |trace| && RunOps(l.Ops(), c0, at.steps) == c && StandsAt(l, c, trace[n], at.item)
    requires CodeLoaded(l.image, trace[n].m.bus) && PlainStepTo(l, trace[n], trace[n + 1]) && at.state == n
    ensures TracksTo(l, c0, trace, n + 1, next.steps, next.state, next.item) && Forward(at, next)
  {
    var steps, k := ExtendRun(l, c0, at.steps, c, trace[n], trace[n + 1], at.item);
    next := Mark(steps, n + 1, k);
  }

  lemma MarksMore(l: Lifted, c0: Config, trace: seq<Cpu>, before: seq<Mark>, next: Mark)
    requires ValidItems(l.items) && before != [] && forall i :: 0 <= i < |before| ==> MarkHolds(l, c0, trace, before, i)
    requires forall i :: 0 < i < |before| ==> Forward(before[i - 1], before[i])
    requires TracksTo(l, c0, trace, |before|, next.steps, next.state, next.item) && Forward(before[|before| - 1], next)
    ensures var marks := before + [next];
            && (forall i :: 0 <= i < |marks| ==> MarkHolds(l, c0, trace, marks, i))
            && (forall i :: 0 < i < |marks| ==> Forward(marks[i - 1], marks[i]))
  {
    hide TracksTo;
    var marks := before + [next];
    forall i | 0 <= i < |marks|
      ensures MarkHolds(l, c0, trace, marks, i)
    {
      if i < |before| { MarkStays(l, c0, trace, before, next, i); }
    }
  }

  lemma MarkStays(l: Lifted, c0: Config, trace: seq<Cpu>, before: seq<Mark>, next: Mark, i: nat)
    requires ValidItems(l.items) && i < |before| && MarkHolds(l, c0, trace, before, i)
    ensures MarkHolds(l, c0, trace, before + [next], i)
  {
    assert (before + [next])[i] == before[i];
  }

  lemma StartMark(l: Lifted, trace: seq<Cpu>)
    requires l.Laid() && trace != [] && trace[0].pc == l.opts.start && CodeLoaded(l.image, trace[0].m.bus)
    ensures TracksTo(l, At(0, trace[0].m), trace, 0, 0, 0, 0)
  {
    var c0 := At(0, trace[0].m);
    assert RunOps(l.Ops(), c0, 0) == c0 && StandsAt(l, c0, trace[0], 0);
  }

  lemma MarkOneMore(l: Lifted, c0: Config, trace: seq<Cpu>, before: seq<Mark>) returns (marks: seq<Mark>)
    requires l.Valid() && PlainRun(l, trace) && 0 < |before| < |trace|
    requires forall i :: 0 <= i < |before| ==> MarkHolds(l, c0, trace, before, i)
    requires forall i :: 0 < i < |before| ==> Forward(before[i - 1], before[i])
    ensures |marks| == |before| + 1
    ensures forall i :: 0 <= i < |marks| ==> MarkHolds(l, c0, trace, marks, i)
    ensures forall i :: 0 < i < |marks| ==> Forward(marks[i - 1], marks[i])
  {
    hide StepOp, Gone, StandsAt;
    var last := |before| - 1;
    assert MarkHolds(l, c0, trace, before, last);
    var next := TrackOneMore(l, c0, trace, last, before[last]);
    MarksMore(l, c0, trace, before, next);
    marks := before + [next];
  }

  lemma {:induction false} TrackPrefix(l: Lifted, trace: seq<Cpu>, n: nat) returns (marks: seq<Mark>)
    requires l.Valid() && PlainRun(l, trace) && n < |trace|
    requires trace[0].pc == l.opts.start && CodeLoaded(l.image, trace[0].m.bus)
    ensures |marks| == n + 1
    ensures forall i :: 0 <= i <= n ==> MarkHolds(l, At(0, trace[0].m), trace, marks, i)
    ensures forall i :: 0 < i <= n ==> Forward(marks[i - 1], marks[i])
  {
    hide StepOp, Gone, StandsAt, TracksTo;
    var c0 := At(0, trace[0].m);
    if n == 0 {
      StartMark(l, trace);
      marks := [Mark(0, 0, 0)];
    } else {
      var before := TrackPrefix(l, trace, n - 1);
      marks := MarkOneMore(l, c0, trace, before);
    }
  }

  /**
   Whole-routine simulation. Start the interpreter at the routine's first address
   and the lifted routine at its entry label, on the same machine. Along any run of
   plain instructions the routine, always running forward, comes to each of the
   interpreter's addresses in turn with an equal machine, or it stopped earlier, with the
   machine and the address the interpreter had at that moment, and at an address that could
   not be entered.
   */
  lemma RoutineSimulates(l: Lifted, trace: seq<Cpu>) returns (marks: seq<Mark>)
    requires l.Valid() && PlainRun(l, trace)
    requires trace[0].pc == l.opts.start && CodeLoaded(l.image, trace[0].m.bus)
    ensures Tracks(l, At(0, trace[0].m), trace, marks)
  {
    marks := TrackPrefix(l, trace, |trace| - 1);
  }

  // ----- where the simulated run ends -----

  /** Calls, returns, traps and indirect jumps, away from profiled sites. */
  predicate HandsOver(insn: Instruction, opts: LiftOptions) {
    && insn.Valid()
    && FindEscape(opts.returnEscapes, insn.pc).None? && SiteOps(opts, insn.pc) == []
    && var mn := insn.mnemonic;
       mn.JSR? || mn.RTS? || mn.RTI? || mn.BRK? || mn.JAM? || (mn.JMP? && insn.mode.Indirect?)
  }

  /** The exit an instruction hands over with. */
  predicate IsExitOf(op: Op, insn: Instruction, opts: LiftOptions)
    requires HandsOver(insn, opts)
  {
    match insn.mnemonic
    case JSR =>
      (match FindEngine(opts.engines, insn.pc)
       case Some(site) =>
         op == JumpEngineCall(site.targets, site.returnTarget, site.tailIndices, site.stackReturnBytes, site.targetEntryA)
       case None => op == Jsr(LabelFor(insn.operand.addr, opts))
                    || op == MaterializedJsr(LabelFor(insn.operand.addr, opts), WrapAddress(insn.pc + 2)))
    case RTS => op == Rts
    case RTI => op == Rti
    case BRK => op == Brk(insn.pc)
    case JAM => op == Jam(insn.pc, insn.opcode)
    case JMP => op == JmpIndirect(insn.operand.addr)
  }

  lemma ExitOp(insn: Instruction, opts: LiftOptions)
    requires HandsOver(insn, opts)
    ensures |LiftInsn(insn, opts)| == 1 && IsExitOf(LiftInsn(insn, opts)[0], insn, opts)
  {
  }

  lemma ExitBlock(opts: LiftOptions, labelled: set<Address>, insn: Instruction, last: Op)
    requires HandsOver(insn, opts) && last == LiftInsn(insn, opts)[0]
    ensures ItemOps(opts, labelled, Code(insn)) == Markers(opts, labelled, insn) + [last]
    ensures IsExit(last)
  {
    hide ItemOps, LabelFor;
    ExitOp(insn, opts);
    BlockIsMarkersThenLift(opts, labelled, insn);
  }

  /** Operations that are left to the runtime. */
  predicate IsExit(op: Op) {
    !Sequential(op) && !op.BranchIf? && !op.Jmp?
  }

  lemma ExitStep(ops: seq<Op>, at: nat, op: Op, m: Machine)
    requires at < |ops| && ops[at] == op && IsExit(op)
    ensures StepOp(ops, At(at, m)) == Stopped(Exit(op), m)
  {
  }

  lemma RunExitBlock(ops: seq<Op>, at: nat, opts: LiftOptions, labelled: set<Address>, insn: Instruction, m: Machine)
    requires HandsOver(insn, opts)
    requires Stands(ops, at, ItemOps(opts, labelled, Code(insn)))
    ensures var n := |ItemOps(opts, labelled, Code(insn))|;
            RunOps(ops, At(at, m), n) == Stopped(Exit(LiftInsn(insn, opts)[0]), m)
  {
    var markers, last := Markers(opts, labelled, insn), LiftInsn(insn, opts)[0];
    ExitBlock(opts, labelled, insn, last);
    PrefixHasNoEffect(opts, labelled, insn, m);
    RunToLast(ops, at, markers, last, m);
    ExitStep(ops, at + |markers|, last, m);
  }

  lemma StandsOnCode(l: Lifted, c: Config, s: Cpu, k: nat)
    requires ValidItems(l.items) && StandsAt(l, c, s, k)
    ensures k < |l.items| && l.items[k].Code?
  {
  }

  lemma RunExitItem(l: Lifted, k: nat, insn: Instruction, m: Machine) returns (n: nat, op: Op)
    requires ValidItems(l.items) && k < |l.items| && l.items[k].Code? && l.items[k].insn == insn && HandsOver(insn, l.opts)
    ensures RunOps(l.Ops(), At(Position(l, k), m), n) == Stopped(Exit(op), m) && IsExitOf(op, insn, l.opts)
  {
    hide StepOp;
    ItemBlock(l, k);
    RunExitBlock(l.Ops(), Position(l, k), l.opts, l.labelled, insn, m);
    ExitOp(insn, l.opts);
    n, op := |ItemBlocks(l)[k]|, LiftInsn(insn, l.opts)[0];
  }

  /**
   A routine that stands at a call, return, trap or indirect jump stops with that very exit
   and the interpreter's machine untouched.
   */
  lemma StandingExits(l: Lifted, c: Config, s: Cpu, k: nat) returns (steps: nat, op: Op)
    requires l.Valid() && l.Laid() && ValidItems(l.items) && StandsAt(l, c, s, k) && CodeLoaded(l.image, s.m.bus)
    requires HandsOver(Current(l.image.table, s), l.opts)
    ensures RunOps(l.Ops(), c, steps) == Stopped(Exit(op), s.m)
    ensures IsExitOf(op, Current(l.image.table, s), l.opts)
  {
    hide *;
    StandsOnCode(l, c, s, k);
    StandingInstruction(l, c, s, k);
    var a := EnterFromTop(l, c, s, k);
    var b;
    b, op := RunExitItem(l, k, l.items[k].insn, s.m);
    RunOpsAdd(l.Ops(), c, a, b);
    steps := a + b;
  }

  /** After `steps` operations the routine has stopped with the exit of the instruction at `s.pc`, on the machine of `s`. */
  ghost predicate HandedOver(l: Lifted, c0: Config, s: Cpu, steps: nat, op: Op)
    requires ValidItems(l.items)
  {
    && RunOps(l.Ops(), c0, steps) == Stopped(Exit(op), s.m)
    && HandsOver(Current(l.image.table, s), l.opts) && IsExitOf(op, Current(l.image.table, s), l.opts)
  }

  lemma HandsOverBy(l: Lifted, c0: Config, s: Cpu, steps: nat, op: Op)
    requires ValidItems(l.items) && HandsOver(Current(l.image.table, s), l.opts)
    requires RunOps(l.Ops(), c0, steps) == Stopped(Exit(op), s.m) && IsExitOf(op, Current(l.image.table, s), l.opts)
    ensures HandedOver(l, c0, s, steps, op)
  {
    hide RunOps, Lifted.Ops, HandsOver, IsExitOf, Current;
  }

  lemma ExitAfter(l: Lifted, c0: Config, run: nat, s: Cpu, k: nat) returns (steps: nat, op: Op)
    requires l.Valid() && l.Laid() && ValidItems(l.items) && StandsAt(l, RunOps(l.Ops(), c0, run), s, k) && CodeLoaded(l.image, s.m.bus)
    requires HandsOver(Current(l.image.table, s), l.opts)
    ensures HandedOver(l, c0, s, steps, op)
  {
    hide *;
    var more;
    more, op := StandingExits(l, RunOps(l.Ops(), c0, run), s, k);
    RunOpsAdd(l.Ops(), c0, run, more);
    steps := run + more;
    HandsOverBy(l, c0, s, steps, op);
  }

  /**
   A plain run that ends before a call, return, trap or indirect jump: the routine stops with
   that exit and an equal machine, unless it left earlier for an address that could not be entered.
   */
  lemma RunEndsInExit(l: Lifted, trace: seq<Cpu>) returns (marks: seq<Mark>, steps: nat, op: Op)
    requires l.Valid() && PlainRun(l, trace)
    requires trace[0].pc == l.opts.start && CodeLoaded(l.image, trace[0].m.bus)
    requires HandsOver(Current(l.image.table, trace[|trace| - 1]), l.opts)
    ensures Tracks(l, At(0, trace[0].m), trace, marks)
    ensures HandedOver(l, At(0, trace[0].m), trace[|trace| - 1], steps, op)
            || GoneBy(l, At(0, trace[0].m), trace, marks[|trace| - 1])
  {
    marks := RoutineSimulates(l, trace);
    var n := |trace| - 1;
    var c0 := At(0, trace[0].m);
    assert MarkHolds(l, c0, trace, marks, n);
    StandsOrGone(l, c0, trace, n, marks[n]);
    steps, op := 0, Rts;
    if !GoneBy(l, c0, trace, marks[n]) {
      steps, op := ExitAfter(l, c0, marks[n].steps, trace[n], marks[n].item);
    }
  }
}
