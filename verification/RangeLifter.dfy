/**
 The whole of `lift_range`: sweep, site validation, emission walk. The loops are
 proved to compute the functional plan, and the plan is proved to be a routine the
 simulation theorem applies to.
 */
module RangeLifter {
  import opened Bytes
  import opened Cpu6502
  import opened Isa
  import opened Ir
  import opened Lifter
  import opened LiftRange
  import opened ReturnSites
  import opened RoutineSimulation
  import opened Concatenation

  function CheckAllMaterialized(image: Image, opts: LiftOptions, sites: seq<MaterializedCallSite>): Verdict {
    if sites == [] then Accept
    else Then(CheckMaterialized(image, opts, sites[0]), CheckAllMaterialized(image, opts, sites[1..]))
  }

  function CheckAllConsumes(image: Image, opts: LiftOptions, labelled: set<Address>, sites: seq<ReturnConsumeSite>): Verdict {
    if sites == [] then Accept
    else Then(CheckConsume(image, opts, labelled, sites[0]), CheckAllConsumes(image, opts, labelled, sites[1..]))
  }

  function CheckAllEscapes(image: Image, opts: LiftOptions, labelled: set<Address>, sites: seq<ReturnEscapeSite>): Verdict {
    if sites == [] then Accept
    else Then(CheckEscape(image, opts, labelled, sites[0]), CheckAllEscapes(image, opts, labelled, sites[1..]))
  }

  function CheckSites(image: Image, opts: LiftOptions, labelled: set<Address>): Verdict {
    Then(CheckAllMaterialized(image, opts, opts.materializedCalls),
    Then(CheckAllConsumes(image, opts, labelled, opts.returnConsumes),
         CheckAllEscapes(image, opts, labelled, opts.returnEscapes)))
  }

  /** A consuming block inside the range must have been emitted. */
  function CheckEmitted(opts: LiftOptions, items: seq<Item>, sites: seq<ReturnEscapeSite>): Verdict {
    if sites == [] then Accept else
    var site := sites[0];
    if site.alreadyConsumed && site.consumeAt.Some? && InRange(opts, site.consumeAt.value)
       && !(Emits(items, site.consumeAt.value) && Emits(items, site.caller))
    then Reject(Rejected(site.caller))
    else CheckEmitted(opts, items, sites[1..])
  }

  /** Everything `lift_range` decides, before the operations are laid out. */
  function Plan(image: Image, opts: LiftOptions): Result<Lifted, LiftError> {
    if opts.start >= opts.end then Err(OutsideRange(opts.start)) else
    match CollectTargets(image, opts, opts.start)
    case Err(e) => Err(e)
    case Ok(internal) =>
      var labelled := internal + ExtraTargets(opts);
      match CheckSites(image, opts, labelled)
      case Reject(e) => Err(e)
      case Accept =>
        match Walk(image, opts, internal, opts.start)
        case Err(e) => Err(e)
        case Ok(items) =>
          match CheckEmitted(opts, items, opts.returnEscapes)
          case Reject(e) => Err(e)
          case Accept => Ok(Lifted(image, opts, labelled, items))
  }

  // ----- the plan is a routine the simulation applies to -----

  /** A successful plan is well shaped whenever its entry is code and its name is not another address's label. */
  lemma PlanIsValid(image: Image, opts: LiftOptions)
    requires image.Valid() && Plan(image, opts).Ok?
    ensures ValidItems(Plan(image, opts).value.items)
    ensures !DataByte(opts, opts.start) && Plan(image, opts).value.EntryNameIsClean() ==> Plan(image, opts).value.Valid()
  {
    var internal := CollectTargets(image, opts, opts.start).value;
    WalkShape(image, opts, internal, opts.start);
  }

  /**
   Whole-range preservation: along any run of plain instructions from `start`, the
   lifted range tracks the interpreter (see `RoutineSimulates`).
   */
  lemma LiftedRangeSimulates(image: Image, opts: LiftOptions, trace: seq<Cpu>) returns (marks: seq<Mark>)
    requires image.Valid() && Plan(image, opts).Ok?
    requires !DataByte(opts, opts.start) && Plan(image, opts).value.EntryNameIsClean()
    requires PlainRun(Plan(image, opts).value, trace)
    requires trace[0].pc == opts.start && CodeLoaded(image, trace[0].m.bus)
    ensures ValidItems(Plan(image, opts).value.items)
    ensures Tracks(Plan(image, opts).value, At(0, trace[0].m), trace, marks)
  {
    PlanIsValid(image, opts);
    marks := RoutineSimulates(Plan(image, opts).value, trace);
  }

  /** The table behind an emitted dispatch call is data: nothing in it is emitted, whatever branches into it. */
  lemma EmittedTableIsSkipped(image: Image, opts: LiftOptions, k: nat, site: JumpEngineSite, j: nat)
    requires image.Valid() && Plan(image, opts).Ok?
    requires var items := Plan(image, opts).value.items;
             k < |items| && items[k].Code? && EngineOf(opts, items[k].insn) == Some(site) && j < |items|
    ensures !site.ContainsTableByte(Plan(image, opts).value.items[j].Pc())
  {
    hide Walk, CollectTargets, CheckSites, CheckEmitted, FallsThrough, Decoded, FindEngine;
    var items := Plan(image, opts).value.items;
    var internal := CollectTargets(image, opts, opts.start).value;
    WalkShape(image, opts, internal, opts.start);
    if j <= k {
      assert items[j].Pc() <= items[k].Pc();
    } else {
      WalkFollows(image, opts, internal, opts.start, k);
      assert items[k + 1].Pc() <= items[j].Pc();
    }
  }

  // ----- accepted sites -----

  lemma {:induction false} EachConsumeAccepted(image: Image, opts: LiftOptions, labelled: set<Address>,
                                               sites: seq<ReturnConsumeSite>, site: ReturnConsumeSite)
    requires CheckAllConsumes(image, opts, labelled, sites).Accept? && site in sites
    ensures CheckConsume(image, opts, labelled, site).Accept?
  {
    if site != sites[0] {
      EachConsumeAccepted(image, opts, labelled, sites[1..], site);
    }
  }

  lemma {:induction false} EachEscapeAccepted(image: Image, opts: LiftOptions, labelled: set<Address>,
                                              sites: seq<ReturnEscapeSite>, site: ReturnEscapeSite)
    requires CheckAllEscapes(image, opts, labelled, sites).Accept? && site in sites
    ensures CheckEscape(image, opts, labelled, site).Accept?
  {
    if site != sites[0] {
      EachEscapeAccepted(image, opts, labelled, sites[1..], site);
    }
  }

  lemma PlanAcceptsSites(image: Image, opts: LiftOptions)
    requires Plan(image, opts).Ok?
    ensures CheckAllConsumes(image, opts, Plan(image, opts).value.labelled, opts.returnConsumes).Accept?
    ensures CheckAllEscapes(image, opts, Plan(image, opts).value.labelled, opts.returnEscapes).Accept?
  {
  }

  /**
   Every consumed escape listed for a range that lifts: the interpreter goes from its first
   pull to its target, raises SP by exactly two and writes nothing.
   */
  lemma LiftedEscapeIsSound(image: Image, opts: LiftOptions, site: ReturnEscapeSite, m: Machine) returns (trace: seq<Cpu>)
    requires image.Valid() && CodeLoaded(image, m.bus)
    requires Plan(image, opts).Ok? && site in opts.returnEscapes && site.alreadyConsumed
    requires site.consumeAt.Some? && site.consumeAt.value < opts.end && opts.start <= site.caller
    ensures OracleRun(image.table, trace) && trace[0] == Cpu(site.consumeAt.value, m)
    ensures var last := trace[|trace| - 1];
            last.pc == site.target && last.m.bus == m.bus && last.m.sp == WrapByte(m.sp + 2)
  {
    var labelled := Plan(image, opts).value.labelled;
    PlanAcceptsSites(image, opts);
    EachEscapeAccepted(image, opts, labelled, opts.returnEscapes, site);
    trace := EscapeIsSound(image, opts, labelled, site, m);
  }

  /** Every pull pair listed for a range that lifts: through its second pull SP rises by exactly two and only zero page changes. */
  lemma LiftedConsumeIsSound(image: Image, opts: LiftOptions, site: ReturnConsumeSite, m: Machine) returns (trace: seq<Cpu>)
    requires image.Valid() && CodeLoaded(image, m.bus)
    requires Plan(image, opts).Ok? && site in opts.returnConsumes
    requires SecondPull(site).Some? && site.at < opts.end && opts.start <= SecondPull(site).value
    ensures OracleRun(image.table, trace) && trace[0] == Cpu(site.at, m)
    ensures var end := trace[|trace| - 1];
            end.pc == SecondPull(site).value + 1 && OnlyZeroPage(m.bus, end.m.bus) && end.m.sp == WrapByte(m.sp + 2)
  {
    var labelled := Plan(image, opts).value.labelled;
    PlanAcceptsSites(image, opts);
    EachConsumeAccepted(image, opts, labelled, opts.returnConsumes, site);
    trace := ConsumeIsSound(image, opts, labelled, site, m);
  }

  // ----- which branches find a label -----

  /** Addresses the first pass decodes. */
  predicate Swept(image: Image, opts: LiftOptions, pc: Address, at: Address)
    decreases opts.end - pc
  {
    if pc >= opts.end then false else
    match FindRegion(opts.dataRegions, pc)
    case Some(region) => Swept(image, opts, AfterRegion(region), at)
    case None =>
      || pc == at
      || (InsnAt(image, pc).Ok? && pc + InsnAt(image, pc).value.size < 0x1_0000
          && SweepOn(opts, InsnAt(image, pc).value).Some?
          && Swept(image, opts, SweepOn(opts, InsnAt(image, pc).value).value, at))
  }

  /** Every target of a swept instruction that the range can label is collected. */
  lemma {:induction false} SweptTargetsAreCollected(image: Image, opts: LiftOptions, pc: Address, at: Address, t: Address)
    requires CollectTargets(image, opts, pc).Ok? && Swept(image, opts, pc, at)
    ensures InsnAt(image, at).Ok?
    ensures InternalTarget(opts, InsnAt(image, at).value, t) ==> t in CollectTargets(image, opts, pc).value
    decreases opts.end - pc
  {
    match FindRegion(opts.dataRegions, pc)
    case Some(region) => SweptTargetsAreCollected(image, opts, AfterRegion(region), at, t);
    case None =>
      if pc != at {
        SweptTargetsAreCollected(image, opts, SweepOn(opts, InsnAt(image, pc).value).value, at, t);
      }
  }

  /** Conversely only in-range code addresses named by a swept branch or jump are collected. */
  lemma {:induction false} CollectedTargets(image: Image, opts: LiftOptions, pc: Address, t: Address) returns (at: Address)
    requires CollectTargets(image, opts, pc).Ok? && t in CollectTargets(image, opts, pc).value
    ensures Swept(image, opts, pc, at) && InsnAt(image, at).Ok? && InternalTarget(opts, InsnAt(image, at).value, t)
    decreases opts.end - pc
  {
    match FindRegion(opts.dataRegions, pc)
    case Some(region) => at := CollectedTargets(image, opts, AfterRegion(region), t);
    case None =>
      var insn := InsnAt(image, pc).value;
      if t in TargetsOf(opts, insn) {
        at := pc;
      } else {
        at := CollectedTargets(image, opts, SweepOn(opts, insn).value, t);
      }
  }

  /** An emitted address can be entered by a branch exactly when it is labelled or is the named entry. */
  lemma EnterableIffLabelled(l: Lifted, t: Address)
    requires l.Valid()
    ensures Enterable(l, t) <==>
              LabelFor(t, l.opts) == l.opts.entryName || (t in l.labelled && Emits(l.items, t))
  {
    if t in l.labelled && Emits(l.items, t) && LabelFor(t, l.opts) != l.opts.entryName {
      var k :| 0 <= k < |l.items| && l.items[k].Code? && l.items[k].Pc() == t;
      assert Defines(l, k, t);
    }
    if exists k: nat :: Defines(l, k, t) {
      var k: nat :| Defines(l, k, t);
      assert l.items[k].Pc() == t;
    }
  }

  /** Every emitted instruction is one the first pass decoded too, outside dispatch tables. */
  ghost predicate AllSwept(l: Lifted) {
    forall k :: 0 <= k < |l.items| && l.items[k].Code? ==>
      Swept(l.image, l.opts, l.opts.start, l.items[k].Pc()) && !InTable(l.opts, l.items[k].Pc())
  }

  /** The target of a swept, emitted branch can be entered exactly when it was emitted or is the named entry. */
  lemma SweptTargetIsEnterable(image: Image, opts: LiftOptions, k: nat, t: Address)
    requires image.Valid() && Plan(image, opts).Ok? && Plan(image, opts).value.Valid()
    requires BranchesTo(Plan(image, opts).value, k, t)
    requires Swept(image, opts, opts.start, Plan(image, opts).value.items[k].Pc())
    ensures var l := Plan(image, opts).value;
            !InTable(opts, t) ==> (Enterable(l, t) <==> LabelFor(t, opts) == opts.entryName || Emits(l.items, t))
  {
    var l := Plan(image, opts).value;
    EnterableIffLabelled(l, t);
    if Emits(l.items, t) && !InTable(opts, t) {
      var j :| 0 <= j < |l.items| && l.items[j].Code? && l.items[j].Pc() == t;
      SweptTargetsAreCollected(image, opts, opts.start, l.items[k].Pc(), t);
    }
  }

  /**
   When the sweep decoded every emitted instruction, a run can stop early only at an address
   where nothing was emitted: control has truly left the emitted blocks.
   */
  lemma SweptRangeLeavesOnlyOutside(image: Image, opts: LiftOptions, trace: seq<Cpu>) returns (marks: seq<Mark>)
    requires image.Valid() && Plan(image, opts).Ok?
    requires !DataByte(opts, opts.start) && Plan(image, opts).value.EntryNameIsClean()
    requires AllSwept(Plan(image, opts).value)
    requires PlainRun(Plan(image, opts).value, trace)
    requires trace[0].pc == opts.start && CodeLoaded(image, trace[0].m.bus)
    ensures ValidItems(Plan(image, opts).value.items)
    ensures Tracks(Plan(image, opts).value, At(0, trace[0].m), trace, marks)
    ensures forall n :: 0 <= n < |marks| && marks[n].state < n ==> !Emits(Plan(image, opts).value.items, trace[marks[n].state].pc)
  {
    PlanIsValid(image, opts);
    marks := LiftedRangeSimulates(image, opts, trace);
    forall n | 0 <= n < |marks| && marks[n].state < n
      ensures !Emits(Plan(image, opts).value.items, trace[marks[n].state].pc)
    {
      assert MarkHolds(Plan(image, opts).value, At(0, trace[0].m), trace, marks, n);
      StopIsOutside(image, opts, trace[marks[n].state].pc);
    }
  }

  lemma StopIsOutside(image: Image, opts: LiftOptions, t: Address)
    requires image.Valid() && Plan(image, opts).Ok? && Plan(image, opts).value.Valid() && AllSwept(Plan(image, opts).value)
    requires Departs(Plan(image, opts).value, t) && !Enterable(Plan(image, opts).value, t)
    ensures !Emits(Plan(image, opts).value.items, t)
  {
    var l := Plan(image, opts).value;
    if BranchedTo(l, t) {
      var k: nat :| BranchesTo(l, k, t);
      SweptTargetIsEnterable(image, opts, k, t);
    }
  }

  /**
   Exactly when a taken branch leaves a lifted range: its target is not the named entry and
   not both emitted and labelled. For a swept branch the second condition is just "not emitted".
   */
  lemma TakenBranchLeavesIff(image: Image, opts: LiftOptions, k: nat, m: Machine) returns (n: nat)
    requires image.Valid() && Plan(image, opts).Ok? && Plan(image, opts).value.Valid()
    requires var l := Plan(image, opts).value;
             && k < |l.items| && l.items[k].Code? && Plain(l.items[k].insn, opts, m) && !Straight(l.items[k].insn.mnemonic)
             && (Branches(l.items[k].insn.mnemonic) ==> Taken(l.items[k].insn.mnemonic, m.f))
    ensures var l := Plan(image, opts).value;
            && l.items[k].insn.BranchTarget().Some?
            && var t := l.items[k].insn.BranchTarget().value;
               var c := RunOps(l.Ops(), At(Position(l, k), m), n);
               && (LeftFor(l, c, Cpu(t, m)) <==> LabelFor(t, opts) != opts.entryName && !(t in l.labelled && Emits(l.items, t)))
               && (LeftFor(l, c, Cpu(t, m)) <==> !c.At?)
               && (Swept(image, opts, opts.start, l.items[k].Pc()) && !InTable(opts, t) ==>
                     (LeftFor(l, c, Cpu(t, m)) <==> LabelFor(t, opts) != opts.entryName && !Emits(l.items, t)))
  {
    var l := Plan(image, opts).value;
    n := RunTransferItem(l, k, m);
    var t := l.items[k].insn.BranchTarget().value;
    var j := GotoFollows(l, t, m);
    EnterableIffLabelled(l, t);
    assert BranchesTo(l, k, t);
    if Swept(image, opts, opts.start, l.items[k].Pc()) {
      SweptTargetIsEnterable(image, opts, k, t);
    }
  }

  // ----- the loops -----

  method Sweep(image: Image, opts: LiftOptions) returns (r: Result<set<Address>, LiftError>)
    ensures r == CollectTargets(image, opts, opts.start)
  {
    var internal: set<Address> := {};
    var pc: Address := opts.start;
    EmptyUnion(CollectTargets(image, opts, pc));
    while pc < opts.end
      invariant CollectTargets(image, opts, opts.start) == AddTargets(internal, CollectTargets(image, opts, pc))
      decreases opts.end - pc
    {
      match FindRegion(opts.dataRegions, pc) {
        case Some(region) => pc := AfterRegion(region);
        case None =>
          var decoded := InsnAt(image, pc);
          if decoded.Err? {
            return Err(decoded.error);
          }
          var insn := decoded.value;
          if pc + insn.size >= 0x1_0000 {
            return Err(Wraps(pc));
          }
          var site := EngineOf(opts, insn);
          if site.Some? && site.value.TableEnd() >= opts.end {
            return Ok(internal + TargetsOf(opts, insn));
          }
          var next: Address := if site.Some? then site.value.TableEnd() else pc + insn.size;
          AddTargetsTwice(internal, TargetsOf(opts, insn), CollectTargets(image, opts, next));
          internal := internal + TargetsOf(opts, insn);
          pc := next;
      }
    }
    r := Ok(internal);
  }

  function AddTargets(found: set<Address>, rest: Result<set<Address>, LiftError>): Result<set<Address>, LiftError> {
    match rest
    case Err(e) => Err(e)
    case Ok(more) => Ok(found + more)
  }

  lemma EmptyUnion(rest: Result<set<Address>, LiftError>)
    ensures AddTargets({}, rest) == rest
  {
    if rest.Ok? {
      assert {} + rest.value == rest.value;
    }
  }

  lemma AddTargetsTwice(found: set<Address>, more: set<Address>, rest: Result<set<Address>, LiftError>)
    ensures AddTargets(found, AddTargets(more, rest)) == AddTargets(found + more, rest)
  {
    if rest.Ok? {
      assert found + (more + rest.value) == found + more + rest.value;
    }
  }

  method ScanCalls(image: Image, opts: LiftOptions, after: Address, last: Address) returns (v: Verdict)
    ensures v == CheckCalls(image, opts, after, last, opts.start)
  {
    var scan: Address := opts.start;
    while scan < opts.end
      invariant CheckCalls(image, opts, after, last, scan) == CheckCalls(image, opts, after, last, opts.start)
      decreases opts.end - scan
    {
      match FindRegion(opts.dataRegions, scan) {
        case Some(region) => scan := AfterRegion(region);
        case None =>
          var decoded := InsnAt(image, scan);
          if decoded.Err? {
            return Reject(decoded.error);
          }
          var insn := decoded.value;
          if insn.mnemonic.JSR? && insn.operand.Addr? && after < insn.operand.addr <= last {
            return Reject(Rejected(after));
          }
          var next := ScanOn(opts, scan, insn.size);
          if next.None? {
            return Reject(Rejected(after));
          }
          scan := next.value;
      }
    }
    v := Accept;
  }

  method ScanGap(image: Image, site: Address, start: Address, last: Address) returns (v: Verdict)
    ensures v == CheckGap(image, site, start, last)
  {
    var gap: Address := start;
    while gap < last
      invariant CheckGap(image, site, gap, last) == CheckGap(image, site, start, last)
      decreases last - gap
    {
      var decoded := InsnAt(image, gap);
      if decoded.Err? {
        return Reject(decoded.error);
      }
      var insn := decoded.value;
      var neutral := insn.mnemonic.STA? || insn.mnemonic.STX? || insn.mnemonic.STY? || insn.mnemonic.NOP?;
      if !neutral || gap + insn.size > last || (!insn.mnemonic.NOP? && !insn.mode.ZeroPage?) {
        return Reject(Rejected(site));
      }
      gap := gap + insn.size;
    }
    v := Accept;
  }

  method ScanSuffix(image: Image, site: ReturnEscapeSite, start: Address) returns (v: Verdict)
    requires start <= site.caller
    ensures v == CheckSuffix(image, site, start)
  {
    var pc: Address := start;
    while true
      invariant pc <= site.caller && CheckSuffix(image, site, pc) == CheckSuffix(image, site, start)
      decreases site.caller - pc
    {
      var decoded := InsnAt(image, pc);
      if decoded.Err? {
        return Reject(decoded.error);
      }
      var insn := decoded.value;
      if pc == site.caller {
        var matching := insn.mnemonic.JMP? && insn.mode.Absolute? && insn.operand == Addr(site.target);
        return if matching then Accept else Reject(Rejected(site.caller));
      }
      if !(insn.mnemonic.LDA? || insn.mnemonic.LDX? || insn.mnemonic.LDY? || insn.mnemonic.NOP?) {
        return Reject(Rejected(site.caller));
      }
      if pc + insn.size > site.caller {
        return Reject(Rejected(site.caller));
      }
      pc := pc + insn.size;
    }
  }

  method ValidateConsume(image: Image, opts: LiftOptions, labelled: set<Address>, site: ReturnConsumeSite) returns (v: Verdict)
    ensures v == CheckConsume(image, opts, labelled, site)
  {
    var second := SecondPull(site);
    if second.None? {
      return Reject(Rejected(site.at));
    }
    var last := second.value;
    if site.at >= opts.end || last < opts.start {
      return Accept;
    }
    if !PairInPlace(opts, labelled, site, last) {
      return Reject(Rejected(site.at));
    }
    v := Then(CheckPla(image, site.at, site.at), CheckPla(image, last, site.at));
    if v.Accept? {
      v := ScanGap(image, site.at, site.at + 1, last);
    }
    if v.Accept? && DispatchEnters(opts, site.at, last) {
      v := Reject(Rejected(site.at));
    }
    if v.Accept? {
      v := ScanCalls(image, opts, site.at, last);
    }
  }

  method ValidateEscape(image: Image, opts: LiftOptions, labelled: set<Address>, site: ReturnEscapeSite) returns (v: Verdict)
    ensures v == CheckEscape(image, opts, labelled, site)
  {
    if !site.alreadyConsumed {
      return Accept;
    }
    if site.consumeAt.None? {
      return Reject(Rejected(site.caller));
    }
    var first := site.consumeAt.value;
    if first >= opts.end || site.caller < opts.start {
      return Accept;
    }
    if !BlockInPlace(opts, labelled, site, first) {
      return Reject(Rejected(first));
    }
    v := ScanCalls(image, opts, first, site.caller);
    if v.Accept? {
      v := Then(CheckPla(image, first, first), CheckPla(image, first + 1, first));
    }
    if v.Accept? {
      v := ScanSuffix(image, site, first + 2);
    }
  }

  method ValidateSites(image: Image, opts: LiftOptions, labelled: set<Address>) returns (v: Verdict)
    ensures v == CheckSites(image, opts, labelled)
  {
    var materialized := opts.materializedCalls;
    for i := 0 to |materialized|
      invariant CheckAllMaterialized(image, opts, materialized) == CheckAllMaterialized(image, opts, materialized[i..])
    {
      v := CheckMaterialized(image, opts, materialized[i]);
      if v.Reject? {
        return;
      }
    }
    var consumes := opts.returnConsumes;
    for i := 0 to |consumes|
      invariant CheckAllConsumes(image, opts, labelled, consumes) == CheckAllConsumes(image, opts, labelled, consumes[i..])
    {
      v := ValidateConsume(image, opts, labelled, consumes[i]);
      if v.Reject? {
        return;
      }
    }
    var escapes := opts.returnEscapes;
    for i := 0 to |escapes|
      invariant CheckAllEscapes(image, opts, labelled, escapes) == CheckAllEscapes(image, opts, labelled, escapes[i..])
    {
      v := ValidateEscape(image, opts, labelled, escapes[i]);
      if v.Reject? {
        return;
      }
    }
    v := Accept;
  }

  /** The walk from `pc` continues what has been emitted. */
  function Continue(done: seq<Item>, rest: Result<seq<Item>, LiftError>): Result<seq<Item>, LiftError> {
    match rest
    case Err(e) => Err(e)
    case Ok(items) => Ok(done + items)
  }

  lemma ContinueOne(done: seq<Item>, item: Item, rest: Result<seq<Item>, LiftError>)
    ensures Continue(done, Prepend(item, rest)) == Continue(done + [item], rest)
  {
    if rest.Ok? {
      assert done + ([item] + rest.value) == (done + [item]) + rest.value;
    }
  }

  lemma ContinueNone(rest: Result<seq<Item>, LiftError>)
    ensures Continue([], rest) == rest
  {
    if rest.Ok? {
      assert [] + rest.value == rest.value;
    }
  }

  lemma FlattenOne(opts: LiftOptions, labelled: set<Address>, done: seq<Item>, item: Item)
    requires ValidItems(done) && (item.Code? ==> item.insn.Valid())
    ensures ValidItems(done + [item])
    ensures Flatten(opts, labelled, done + [item]) == Flatten(opts, labelled, done) + ItemOps(opts, labelled, item)
  {
    assert Blocks(opts, labelled, done + [item]) == Blocks(opts, labelled, done) + [ItemOps(opts, labelled, item)];
    ConcatAppend(Blocks(opts, labelled, done), ItemOps(opts, labelled, item));
  }

  lemma CodeEndOne(done: seq<Item>, item: Item, start: Address)
    ensures CodeEnd(done + [item], start)
            == if item.Code? then WrapAddress(item.insn.pc + item.insn.size) else CodeEnd(done, start)
  {
    assert (done + [item])[..|done|] == done;
  }

  lemma VisitedIsValid(image: Image, opts: LiftOptions, targets: set<Address>, pc: Address)
    requires image.Valid() && pc < opts.end && VisitAt(image, opts, targets, pc).Visits?
    ensures var item := VisitAt(image, opts, targets, pc).item;
            item.Code? ==> item.insn.Valid() && item.insn.pc == pc && pc + item.insn.size <= 0xFFFF
  {
    if VisitAt(image, opts, targets, pc).item.Code? {
      DecodedInsn(image, pc);
    }
  }

  datatype Emission = Emission(items: seq<Item>, ops: seq<Op>, end: Address, names: Names)

  /** The operations, end address and names written so far belong to the items visited so far. */
  ghost predicate Emitted(opts: LiftOptions, labelled: set<Address>, e: Emission) {
    && ValidItems(e.items)
    && e.ops == [Label(opts.entryName)] + Flatten(opts, labelled, e.items)
    && e.end == CodeEnd(e.items, opts.start)
    && e.names == AllNames(opts, labelled, e.items)
  }

  lemma Regroup(a: seq<Op>, b: seq<Op>, c: seq<Op>)
    ensures (a + b) + c == a + (b + c)
  {
  }

  lemma WrapsNot(a: nat)
    requires a <= 0xFFFF
    ensures WrapAddress(a) == a
  {
  }

  lemma EndMore(items: seq<Item>, item: Item, start: Address)
    requires item.Code? ==> 0 <= item.insn.pc + item.insn.size <= 0xFFFF
    ensures (if item.Code? then item.insn.pc + item.insn.size else CodeEnd(items, start)) == CodeEnd(items + [item], start)
  {
    CodeEndOne(items, item, start);
    if item.Code? {
      WrapsNot(item.insn.pc + item.insn.size);
    }
  }

  lemma OpsMore(opts: LiftOptions, labelled: set<Address>, items: seq<Item>, ops: seq<Op>, item: Item)
    requires ValidItems(items) && (item.Code? ==> item.insn.Valid())
    requires ops == [Label(opts.entryName)] + Flatten(opts, labelled, items)
    ensures ValidItems(items + [item])
    ensures ops + ItemOps(opts, labelled, item) == [Label(opts.entryName)] + Flatten(opts, labelled, items + [item])
  {
    FlattenOne(opts, labelled, items, item);
    Regroup([Label(opts.entryName)], Flatten(opts, labelled, items), ItemOps(opts, labelled, item));
  }

  /** Writing one more visited item. */
  method EmitItem(opts: LiftOptions, labelled: set<Address>, e: Emission, item: Item) returns (r: Emission)
    requires Emitted(opts, labelled, e)
    requires item.Code? ==> item.insn.Valid() && item.insn.pc + item.insn.size <= 0xFFFF
    ensures Emitted(opts, labelled, r) && r.items == e.items + [item]
  {
    OpsMore(opts, labelled, e.items, e.ops, item);
    EndMore(e.items, item, opts.start);
    AllNamesOne(opts, labelled, e.items, item);
    var end := if item.Code? then item.insn.pc + item.insn.size else e.end;
    r := Emission(e.items + [item], e.ops + ItemOps(opts, labelled, item), end, e.names.Add(NamesOf(opts, labelled, item)));
  }

  /** What has been visited, continued from `pc` (or complete), is the whole walk. */
  ghost predicate OnTheWalk(image: Image, opts: LiftOptions, internal: set<Address>, done: seq<Item>, at: Option<Address>) {
    Walk(image, opts, internal, opts.start)
    == if at.Some? then Continue(done, Walk(image, opts, internal, at.value)) else Ok(done)
  }

  lemma WalkOn(image: Image, opts: LiftOptions, internal: set<Address>, done: seq<Item>, pc: Address)
    requires OnTheWalk(image, opts, internal, done, Some(pc)) && pc < opts.end
    ensures var visit := VisitAt(image, opts, internal, pc);
            if visit.Fails? then Walk(image, opts, internal, opts.start) == Err(visit.error)
            else OnTheWalk(image, opts, internal, done + [visit.item], visit.next)
  {
    var visit := VisitAt(image, opts, internal, pc);
    if visit.Visits? && visit.next.Some? {
      ContinueOne(done, visit.item, Walk(image, opts, internal, visit.next.value));
    }
  }

  lemma WalkDone(image: Image, opts: LiftOptions, internal: set<Address>, done: seq<Item>, pc: Address)
    requires OnTheWalk(image, opts, internal, done, Some(pc)) && pc >= opts.end
    ensures Walk(image, opts, internal, opts.start) == Ok(done)
  {
    assert done + [] == done;
  }

  /** Pass 2: operations are appended while the walk advances. */
  method Emit(image: Image, opts: LiftOptions, internal: set<Address>, labelled: set<Address>)
    returns (r: Result<Emission, LiftError>)
    requires image.Valid()
    ensures match Walk(image, opts, internal, opts.start)
            case Err(e) => r == Err(e)
            case Ok(items) => r.Ok? && r.value.items == items && Emitted(opts, labelled, r.value)
  {
    var e := Emission([], [Label(opts.entryName)], opts.start, NO_NAMES);
    var pc: Option<Address> := Some(opts.start);
    ContinueNone(Walk(image, opts, internal, opts.start));
    assert e.ops == [Label(opts.entryName)] + Flatten(opts, labelled, []);
    while pc.Some? && pc.value < opts.end
      invariant Emitted(opts, labelled, e) && OnTheWalk(image, opts, internal, e.items, pc)
      decreases pc.Some?, if pc.Some? then opts.end - pc.value else 0
    {
      var visit := VisitAt(image, opts, internal, pc.value);
      WalkOn(image, opts, internal, e.items, pc.value);
      if visit.Fails? {
        return Err(visit.error);
      }
      VisitedIsValid(image, opts, internal, pc.value);
      e := EmitItem(opts, labelled, e, visit.item);
      pc := visit.next;
    }
    if pc.Some? {
      WalkDone(image, opts, internal, e.items, pc.value);
    }
    r := Ok(e);
  }

  /** Lifts a contiguous range as one routine. */
  method Lift(image: Image, opts: LiftOptions) returns (r: Result<Routine, LiftError>)
    requires image.Valid()
    ensures Plan(image, opts).Err? ==> r == Err(Plan(image, opts).error)
    ensures Plan(image, opts).Ok? ==>
              var l := Plan(image, opts).value;
              ValidItems(l.items) && r == Ok(Routine(opts.start, l.End(), opts.entryName, l.Ops(), AllNames(opts, l.labelled, l.items)))
  {
    if opts.start >= opts.end {
      return Err(OutsideRange(opts.start));
    }
    var swept := Sweep(image, opts);
    if swept.Err? {
      return Err(swept.error);
    }
    var internal := swept.value;
    var labelled := internal + ExtraTargets(opts);
    var sites := ValidateSites(image, opts, labelled);
    if sites.Reject? {
      return Err(sites.error);
    }
    var emitted := Emit(image, opts, internal, labelled);
    if emitted.Err? {
      return Err(emitted.error);
    }
    var complete := CheckEmitted(opts, emitted.value.items, opts.returnEscapes);
    if complete.Reject? {
      return Err(complete.error);
    }
    r := Ok(Routine(opts.start, emitted.value.end, opts.entryName, emitted.value.ops, emitted.value.names));
  }

  // ----- the names listed -----

  lemma {:induction false} ItemNamesAreListed(opts: LiftOptions, labelled: set<Address>, items: seq<Item>, k: nat)
    requires ValidItems(items) && k < |items|
    ensures var own, all := NamesOf(opts, labelled, items[k]), AllNames(opts, labelled, items);
            own.inside <= all.inside && own.outside <= all.outside && own.pointers <= all.pointers
    decreases |items|
  {
    if k < |items| - 1 {
      ItemNamesAreListed(opts, labelled, items[..|items| - 1], k);
    }
  }

  lemma MarkersMentionNothing(opts: LiftOptions, labelled: set<Address>, insn: Instruction, name: string)
    ensures forall op :: op in LabelOps(opts, labelled, insn.pc) ==> !Mentions(op, name)
    ensures forall op :: op in SiteOps(opts, insn.pc) ==> !Mentions(op, name)
    ensures !Mentions(Source(insn.pc, insn.size), name)
  {
  }

  lemma HoleMentions(opts: LiftOptions, labelled: set<Address>, at: Address, name: string)
    requires Mentions(Jmp(LabelFor(at, opts)), name)
    ensures NamesOf(opts, labelled, Hole(at)).Lists(name)
  {
  }

  lemma ItemMentions(opts: LiftOptions, labelled: set<Address>, item: Item, d: nat, name: string)
    requires item.Code? ==> item.insn.Valid()
    requires d < |ItemOps(opts, labelled, item)| && Mentions(ItemOps(opts, labelled, item)[d], name)
    ensures NamesOf(opts, labelled, item).Lists(name)
  {
    hide LiftInsn, LabelOps, SiteOps, NamesOf, Mentions;
    if item.Code? {
      var insn := item.insn;
      var a, b, c, e := LabelOps(opts, labelled, insn.pc), [Source(insn.pc, insn.size)], SiteOps(opts, insn.pc), LiftInsn(insn, opts);
      Part(a, b, c, e, d);
      MarkersMentionNothing(opts, labelled, insn, name);
      LiftMentions(insn, opts, labelled, d - |a| - |b| - |c|, name);
    } else {
      HoleMentions(opts, labelled, item.at, name);
    }
  }

  /** Every label an operation of the routine refers to is listed, inside or outside. */
  lemma MentionedNamesAreListed(l: Lifted, i: nat, name: string)
    requires ValidItems(l.items) && i < |l.Ops()| && Mentions(l.Ops()[i], name)
    ensures AllNames(l.opts, l.labelled, l.items).Lists(name)
  {
    var k, d := Locate(ItemBlocks(l), i - 1);
    assert l.Ops()[i] == ItemBlocks(l)[k][d];
    ItemMentions(l.opts, l.labelled, l.items[k], d, name);
    ItemNamesAreListed(l.opts, l.labelled, l.items, k);
  }

  /** What a listed name stands for. */
  ghost predicate Accounts(opts: LiftOptions, items: seq<Item>, name: string, inside: bool) {
    || (exists a: Address :: name == LabelFor(a, opts) && InRange(opts, a) == inside)
    || (!inside && exists k :: 0 <= k < |items| && Supplies(opts, items[k], name))
  }

  /** The name of a hole, or of a dispatch call's targets. */
  predicate Supplies(opts: LiftOptions, item: Item, name: string) {
    match item
    case Hole(at) => name == LabelFor(at, opts)
    case Code(insn) => name in DispatchNames(opts, insn)
  }

  /**
   Conversely a name listed inside is the label of an address in range, and one listed outside
   is the label of an address out of range, of a data hole, or named by a dispatch call.
   */
  lemma {:induction false} ListedNamesAreAccounted(opts: LiftOptions, labelled: set<Address>, items: seq<Item>, name: string)
    requires ValidItems(items) && forall k :: 0 <= k < |items| ==> InRange(opts, items[k].Pc())
    ensures name in AllNames(opts, labelled, items).inside ==> Accounts(opts, items, name, true)
    ensures name in AllNames(opts, labelled, items).outside ==> Accounts(opts, items, name, false)
    decreases |items|
  {
    if items != [] {
      var n := |items| - 1;
      ListedNamesAreAccounted(opts, labelled, items[..n], name);
      NamesAreAccounted(opts, labelled, items[n], name);
    }
  }

  lemma NamesAreAccounted(opts: LiftOptions, labelled: set<Address>, item: Item, name: string)
    requires (item.Code? ==> item.insn.Valid()) && InRange(opts, item.Pc())
    ensures name in NamesOf(opts, labelled, item).inside ==> exists a: Address :: name == LabelFor(a, opts) && InRange(opts, a)
    ensures name in NamesOf(opts, labelled, item).outside ==>
              Supplies(opts, item, name) || exists a: Address :: name == LabelFor(a, opts) && !InRange(opts, a)
  {
  }

  // ----- calls -----

  lemma {:induction false} LastSourceAt(ops: seq<Op>, s: nat, i: nat)
    requires s <= i < |ops| && ops[s].Source?
    requires forall j :: s < j <= i ==> !ops[j].Source?
    ensures LastSource(ops, i) == Some(WrapAddress(ops[s].pc + ops[s].size))
    decreases i - s
  {
    if i > s {
      LastSourceAt(ops, s, i - 1);
    }
  }

  /** In a block of markers and operations the only source marker is the one after the label. */
  lemma SourceInBlock(a: seq<Op>, b: Op, c: seq<Op>, e: seq<Op>, d: nat)
    requires b.Source?
    requires forall i :: 0 <= i < |c| ==> !c[i].Source?
    requires forall i :: 0 <= i < |e| ==> !e[i].Source?
    requires |a| <= d < |a + [b] + c + e|
    ensures (a + [b] + c + e)[d].Source? <==> d == |a|
    ensures d == |a| ==> (a + [b] + c + e)[d] == b
  {
    Part(a, [b], c, e, d);
  }

  lemma LastSourceInBlock(ops: seq<Op>, at: nat, a: seq<Op>, b: Op, c: seq<Op>, e: seq<Op>)
    requires b.Source? && |e| == 1
    requires forall i :: 0 <= i < |c| ==> !c[i].Source?
    requires !e[0].Source?
    requires Stands(ops, at, a + [b] + c + e)
    ensures var index := at + |a + [b] + c|;
            index < |ops| && ops[index] == e[0] && LastSource(ops, index) == Some(WrapAddress(b.pc + b.size))
  {
    var block := a + [b] + c + e;
    var s, index := at + |a|, at + |a + [b] + c|;
    assert ops[index] == ops[at..at + |block|][index - at];
    assert ops[s] == ops[at..at + |block|][|a|];
    SourceInBlock(a, b, c, e, |a|);
    forall j | s < j <= index
      ensures !ops[j].Source?
    {
      SourceInBlock(a, b, c, e, j - at);
      assert ops[j] == ops[at..at + |block|][j - at];
    }
    LastSourceAt(ops, s, index);
  }

  lemma BlockParts(l: Lifted, k: nat)
    requires ValidItems(l.items) && k < |l.items| && l.items[k].Code?
    ensures var insn := l.items[k].insn;
            ItemBlocks(l)[k] == LabelOps(l.opts, l.labelled, insn.pc) + [Source(insn.pc, insn.size)]
                                + SiteOps(l.opts, insn.pc) + LiftInsn(insn, l.opts)
  {
    hide LiftInsn, SiteOps, LabelOps;
  }

  /** A one-operation item: where its operation is, and the source marker that governs it. */
  lemma BlockSource(l: Lifted, k: nat) returns (index: nat)
    requires ValidItems(l.items) && k < |l.items| && l.items[k].Code? && |LiftInsn(l.items[k].insn, l.opts)| == 1
    ensures index < |l.Ops()| && l.Ops()[index] == LiftInsn(l.items[k].insn, l.opts)[0]
    ensures LastSource(l.Ops(), index) == Some(WrapAddress(l.items[k].insn.pc + l.items[k].insn.size))
  {
    hide LiftInsn, SiteOps, LabelOps, Stands, LastSource;
    var insn := l.items[k].insn;
    var a, c, e := LabelOps(l.opts, l.labelled, insn.pc), SiteOps(l.opts, insn.pc), LiftInsn(insn, l.opts);
    var b := Source(insn.pc, insn.size);
    ItemBlock(l, k);
    BlockParts(l, k);
    LastSourceInBlock(l.Ops(), Position(l, k), a, b, c, e);
    index := Position(l, k) + |a + [b] + c|;
  }

  lemma CallLift(insn: Instruction, opts: LiftOptions)
    requires insn.Valid() && insn.mnemonic.JSR? && FindEscape(opts.returnEscapes, insn.pc).None?
    requires FindEngine(opts.engines, insn.pc).None?
    ensures |LiftInsn(insn, opts)| == 1 && insn.size == 3
    ensures LiftInsn(insn, opts)[0].Jsr? || LiftInsn(insn, opts)[0].MaterializedJsr?
  {
  }

  /** A pushed word is what the next two pulls deliver. */
  lemma PushedWord(m: Machine, w: Address)
    requires m.bus.romStart > 0x1FF
    ensures m.PushWord(w).TopWord() == w
  {
  }

  lemma CallControl(insn: Instruction, m: Machine, w: Address)
    requires insn.Valid() && insn.mnemonic.JSR? && w == WrapAddress(WrapAddress(insn.pc + insn.size) - 1)
    ensures Execute(insn, m).Stepped? && Execute(insn, m).cpu.m == m.PushWord(w)
  {
  }

  lemma WrapTwice(pc: Address)
    requires pc + 3 <= 0xFFFF
    ensures WrapAddress(WrapAddress(pc + 3) - 1) == pc + 2
  {
  }

  /** After a call the stack delivers the address of its last byte. */
  lemma CallTop(insn: Instruction, m: Machine)
    requires insn.Valid() && insn.mnemonic.JSR? && insn.pc + 3 <= 0xFFFF && m.bus.romStart > 0x1FF
    ensures Execute(insn, m).Stepped? && Execute(insn, m).cpu.m.TopWord() == insn.pc + 2
  {
    WrapTwice(insn.pc);
    CallControl(insn, m, insn.pc + 2);
    PushedWord(m, insn.pc + 2);
  }

  /**
   The return address the runtime derives at a lifted call is where the interpreter
   resumes: an RTS that finds the stack as the call left it.
   */
  lemma CallResumesAtNextSource(l: Lifted, r: Routine, k: nat, m: Machine, rts: Instruction, m': Machine)
    returns (index: nat)
    requires l.Laid() && r.ops == l.Ops()
    requires k < |l.items| && l.items[k].Code? && l.items[k].insn.mnemonic.JSR?
    requires FindEscape(l.opts.returnEscapes, l.items[k].insn.pc).None?
    requires FindEngine(l.opts.engines, l.items[k].insn.pc).None?
    requires m.bus.romStart > 0x1FF
    requires rts.Valid() && rts.mnemonic.RTS?
    requires Execute(l.items[k].insn, m).Stepped? ==>
               m'.TopWord() == Execute(l.items[k].insn, m).cpu.m.TopWord()
    ensures index < |r.ops| && (r.ops[index].Jsr? || r.ops[index].MaterializedJsr?)
    ensures r.NextSourcePc(index) == l.items[k].insn.pc + 3
    ensures Execute(rts, m').Stepped? && Execute(rts, m').cpu.pc == l.items[k].insn.pc + 3
  {
    index := CallIndex(l, k);
    CallTop(l.items[k].insn, m);
    ReturnPops(rts, m', l.items[k].insn.pc + 2);
  }

  lemma CallIndex(l: Lifted, k: nat) returns (index: nat)
    requires l.Laid() && k < |l.items| && l.items[k].Code? && l.items[k].insn.mnemonic.JSR?
    requires FindEscape(l.opts.returnEscapes, l.items[k].insn.pc).None?
    requires FindEngine(l.opts.engines, l.items[k].insn.pc).None?
    ensures index < |l.Ops()| && (l.Ops()[index].Jsr? || l.Ops()[index].MaterializedJsr?)
    ensures LastSource(l.Ops(), index) == Some(WrapAddress(l.items[k].insn.pc + 3))
    ensures l.items[k].insn.pc + 3 <= 0xFFFF
  {
    CallLift(l.items[k].insn, l.opts);
    index := BlockSource(l, k);
  }

  lemma ReturnPops(rts: Instruction, m: Machine, w: Address)
    requires rts.Valid() && rts.mnemonic.RTS? && m.TopWord() == w && w < 0xFFFF
    ensures Execute(rts, m).Stepped? && Execute(rts, m).cpu.pc == w + 1
  {
  }
}
