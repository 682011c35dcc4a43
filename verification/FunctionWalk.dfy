/**
 Walking one function forward from its entry: which instructions are decoded, which
 addresses become labels, external references and new roots, and where it ends.
 Sorted, duplicate-free address lists are modelled as sets.
 */
module FunctionWalk {
  import opened Bytes
  import opened Cpu6502

  datatype RootKind = Vector | ProfileRoot | JumpTableTarget | JsrCallee | JmpTarget

  datatype Window = Window(start: Address, last: Address) {
    predicate Contains(a: Address) {
      start <= a <= last
    }
  }

  /** What the profile says about the bank being analysed. */
  datatype BankFacts = BankFacts(data: set<Address>, engines: set<Address>)

  datatype Context = Context(
    table: Table, prg: seq<Byte>, entry: Address, known: set<Address>, window: Window, facts: BankFacts)
  {
    /** `entry.saturating_add(MAX_FUNCTION_BYTES)`. */
    function Upper(): Address {
      if entry + 4096 > 0xFFFF then 0xFFFF else entry + 4096
    }

    predicate IsInternal(target: Address) {
      && entry <= target < Upper()
      && !(target in known && target != entry)
      && target !in facts.data
      && window.Contains(target)
    }

    /** An annotated call that consumes its return address and dispatches through the table behind it. */
    predicate EngineCall(insn: Instruction) {
      insn.mnemonic.JSR? && insn.mode.Absolute? && insn.pc in facts.engines
    }

    predicate Ends(insn: Instruction) {
      insn.IsTerminator() || EngineCall(insn)
    }

    predicate LoopsBack(target: Address, next: Address) {
      entry <= target < next && target !in known && window.Contains(target)
    }

    /** The address an instruction makes a pending label, if any. */
    function LabelOf(insn: Instruction): Option<Address> {
      var t := insn.BranchTarget();
      if insn.IsBranch() && t.Some? && IsInternal(t.value) then t
      else if insn.mnemonic.JMP? && t.Some? && LoopsBack(t.value, Next(insn)) then t
      else None
    }

    function ExternalOf(insn: Instruction): Option<Address> {
      var t := insn.BranchTarget();
      if t.None? || EngineCall(insn) then None
      else if insn.IsBranch() then if IsInternal(t.value) then None else t
      else if insn.mnemonic.JMP? && LoopsBack(t.value, Next(insn)) then None
      else t
    }

    /** Calls and tail jumps into the window become roots. */
    function RootOf(insn: Instruction): Option<(Address, RootKind)> {
      var t := insn.BranchTarget();
      if t.None? || insn.IsBranch() || EngineCall(insn) || !window.Contains(t.value) then None
      else if insn.mnemonic.JSR? then Some((t.value, JsrCallee))
      else if LoopsBack(t.value, Next(insn)) then None
      else Some((t.value, JmpTarget))
    }

    /** The pointer of an indirect jump. */
    function PointerOf(insn: Instruction): Option<Address> {
      if insn.mnemonic.JMP? && insn.mode.Indirect? && insn.operand.Addr? then Some(insn.operand.addr) else None
    }

    function Decoded(pc: Address): Option<Instruction> {
      if pc < 0x8000 then None else DecodeAt(table, prg, pc, pc - 0x8000)
    }
  }

  /** `pc.wrapping_add(size)`. */
  function Next(insn: Instruction): Address {
    WrapAddress(insn.pc + insn.size)
  }

  datatype CodeRange = CodeRange(offset: nat, len: nat)

  datatype WalkState = WalkState(
    targets: set<Address>, code: seq<CodeRange>, labels: set<Address>, externals: set<Address>,
    unresolved: set<Address>, roots: seq<(Address, RootKind)>)

  function Start(c: Context): WalkState {
    WalkState({c.entry}, [], {}, {}, {}, [])
  }

  datatype Ending = Finished | Truncated | HitData | LeftImage

  /** One pass from the entry: done, or back at the entry because the search for pending targets wrapped at $FFFF. */
  datatype Pass =
    | Done(end: Address, ending: Ending, state: WalkState)
    | Restarts(state: WalkState)

  /** A whole walk; an endless one repeats a pass for ever. */
  datatype Walked =
    | Walked(end: Address, ending: Ending, state: WalkState)
    | Endless

  function AddRoot(roots: seq<(Address, RootKind)>, x: Option<(Address, RootKind)>): seq<(Address, RootKind)> {
    if x.None? || x.value in roots then roots else roots + [x.value]
  }

  function AsSet(x: Option<Address>): set<Address> {
    if x.Some? then {x.value} else {}
  }

  /** What a decoded instruction adds. */
  function Absorb(c: Context, s: WalkState, insn: Instruction): WalkState
    requires 0x8000 <= insn.pc && 0 <= insn.size
  {
    WalkState(
      s.targets + AsSet(c.LabelOf(insn)),
      s.code + [CodeRange(insn.pc - 0x8000, insn.size)],
      s.labels + (AsSet(c.LabelOf(insn)) - {c.entry}),
      s.externals + AsSet(c.ExternalOf(insn)),
      s.unresolved + AsSet(c.PointerOf(insn)),
      AddRoot(s.roots, c.RootOf(insn)))
  }

  /** The least pending target from `from` on that is not data. */
  function FirstPending(targets: set<Address>, data: set<Address>, from: nat): (r: Option<Address>)
    requires from <= 0x1_0000
    ensures r.Some? ==> r.value in targets && r.value !in data && from <= r.value
    ensures forall t :: t in targets && t !in data && from <= t ==> r.Some? && r.value <= t
    decreases 0x1_0000 - from, |targets|, |data|
  {
    if from == 0x1_0000 then None
    else if from in targets && from !in data then Some(from)
    else FirstPending(targets, data, from + 1)
  }

  datatype Iteration = Stop(end: Address, ending: Ending) | Continue(pc: Address)

  function StopBefore(c: Context, pc: Address): Option<Ending> {
    if !c.window.Contains(pc) then Some(LeftImage)
    else if pc >= c.Upper() then Some(Truncated)
    else if pc in c.facts.data then Some(HitData)
    else if c.Decoded(pc).None? then Some(LeftImage)
    else if c.Decoded(pc).value.mnemonic.JAM? then Some(HitData)
    else None
  }

  /** Where control goes after absorbing `insn`: on a terminator, to the next pending target. */
  function GoOn(c: Context, targets: set<Address>, insn: Instruction): Iteration {
    if c.Ends(insn) then
      match FirstPending(targets, c.facts.data, Next(insn))
      case Some(t) => Continue(t)
      case None => Stop(Next(insn), Finished)
    else Continue(Next(insn))
  }

  /**
   One pass. A terminator whose last byte is $FFFF makes the search for pending targets
   start again from $0000, which leads back to the entry.
   */
  function PassFrom(c: Context, s: WalkState, pc: Address): (r: Pass)
    ensures s.targets <= r.state.targets
    decreases if pc >= 0x8000 then 0x1_0000 - pc else 0
  {
    var stop := StopBefore(c, pc);
    if stop.Some? then Done(pc, stop.value, s)
    else
      var insn := c.Decoded(pc).value;
      var s' := Absorb(c, s, insn);
      match GoOn(c, s'.targets, insn)
      case Stop(end, ending) => Done(end, ending, s')
      case Continue(pc') => if c.Ends(insn) && pc' <= pc then Restarts(s') else PassFrom(c, s', pc')
  }

  /** Keeps the labels between the entry and the end. */
  function Retained(entry: Address, end: Address, labels: set<Address>): set<Address> {
    set a | a in labels && entry <= a < end
  }

  function CleanUp(c: Context, end: Address, ending: Ending, s: WalkState): Walked {
    Walked(end, ending, s.(labels := Retained(c.entry, end, s.labels)))
  }

  /** The addresses that are not targets yet. */
  function Untried(targets: set<Address>): set<Address> {
    set a: Address | 0 <= a < 0x1_0000 && a !in targets
  }

  lemma UntriedShrinks(before: set<Address>, after: set<Address>)
    requires before < after
    ensures Untried(after) < Untried(before)
  {
    var a :| a in after && a !in before;
    assert a in Untried(before) && a !in Untried(after);
  }

  /** What follows a pass that began with the targets `started`; one that added none is repeated for ever. */
  function After(c: Context, started: set<Address>, pass: Pass): Walked
    requires started <= pass.state.targets
    decreases Untried(started), 0
  {
    match pass
    case Done(end, ending, s) => CleanUp(c, end, ending, s)
    case Restarts(s) =>
      if s.targets == started then Endless
      else
        UntriedShrinks(started, s.targets);
        WalkFrom(c, s)
  }

  function WalkFrom(c: Context, s: WalkState): Walked
    decreases Untried(s.targets), 1
  {
    After(c, s.targets, PassFrom(c, s, c.entry))
  }

  function WalkFunction(c: Context): Walked {
    WalkFrom(c, Start(c))
  }

  // ----- the walk as a loop -----

  /** What every turn of the loop keeps. */
  ghost predicate InWalk(c: Context, s: WalkState, pc: Address) {
    && c.entry in s.targets && (forall t :: t in s.targets ==> c.entry <= t)
    && (pc == c.entry || (0x8000 <= c.entry && c.entry !in c.facts.data))
  }

  lemma TargetsFromEntryOn(c: Context, insn: Instruction)
    ensures forall t :: t in AsSet(c.LabelOf(insn)) ==> c.entry <= t
  {
  }

  /** A turn stays in the walk; stepping back is going to the entry. */
  lemma TurnStaysInWalk(c: Context, s: WalkState, pc: Address)
    requires InWalk(c, s, pc) && StopBefore(c, pc).None?
    ensures var insn := c.Decoded(pc).value;
            var s' := Absorb(c, s, insn);
            var go := GoOn(c, s'.targets, insn);
            go.Continue? ==> InWalk(c, s', go.pc) && (c.Ends(insn) && go.pc <= pc ==> go.pc == c.entry)
  {
    var insn := c.Decoded(pc).value;
    TargetsFromEntryOn(c, insn);
    assert 0 < insn.size <= 3 && insn.pc == pc;
  }

  lemma LowStops(c: Context, pc: Address)
    requires pc < 0x8000
    ensures StopBefore(c, pc).Some?
  {
  }

  /** One turn of the loop in terms of the pass it belongs to. */
  lemma TurnOfPass(c: Context, s: WalkState, pc: Address)
    requires StopBefore(c, pc).None?
    ensures var insn := c.Decoded(pc).value;
            var s' := Absorb(c, s, insn);
            var go := GoOn(c, s'.targets, insn);
            PassFrom(c, s, pc) == if go.Stop? then Done(go.end, go.ending, s')
                                  else if c.Ends(insn) && go.pc <= pc then Restarts(s')
                                  else PassFrom(c, s', go.pc)
    ensures var insn := c.Decoded(pc).value;
            var go := GoOn(c, Absorb(c, s, insn).targets, insn);
            go.Continue? && !(c.Ends(insn) && go.pc <= pc) ==> pc < go.pc || go.pc < 0x8000
  {
    assert c.Decoded(pc).value.pc == pc;
  }

  method Walk(c: Context) returns (r: Walked)
    ensures r == WalkFunction(c)
  {
    var s, pc, started := Start(c), c.entry, {c.entry};
    var stop := StopBefore(c, pc);
    while stop.None?
      invariant stop == StopBefore(c, pc) && InWalk(c, s, pc)
      invariant started <= s.targets && After(c, started, PassFrom(c, s, pc)) == WalkFunction(c)
      decreases Untried(started), if stop.Some? then 0 else 0x1_0001 - pc
    {
      var insn := c.Decoded(pc).value;
      TurnStaysInWalk(c, s, pc);
      TurnOfPass(c, s, pc);
      s := Absorb(c, s, insn);
      var go := GoOn(c, s.targets, insn);
      if go.Stop? {
        return CleanUp(c, go.end, go.ending, s);
      }
      if c.Ends(insn) && go.pc <= pc {
        if s.targets == started {
          return Endless;
        }
        UntriedShrinks(started, s.targets);
        started := s.targets;
      } else if go.pc < 0x8000 {
        LowStops(c, go.pc);
      }
      pc := go.pc;
      stop := StopBefore(c, pc);
    }
    r := CleanUp(c, pc, stop.value, s);
  }

  // ----- what the walk decoded -----

  function InsnOf(c: Context, r: CodeRange): Option<Instruction> {
    if r.offset < 0x8000 then c.Decoded(0x8000 + r.offset) else None
  }

  /** A visited range is one decoded instruction, of code, inside the window and the size bound. */
  predicate Visited(c: Context, r: CodeRange) {
    && InsnOf(c, r).Some? && InsnOf(c, r).value.size == r.len
    && StopBefore(c, 0x8000 + r.offset).None?
  }

  function LabelsIn(c: Context, code: seq<CodeRange>): set<Address> {
    if code == [] then {} else
    var n := |code| - 1;
    LabelsIn(c, code[..n]) + if InsnOf(c, code[n]).Some? then AsSet(c.LabelOf(InsnOf(c, code[n]).value)) else {}
  }

  function ExternalsIn(c: Context, code: seq<CodeRange>): set<Address> {
    if code == [] then {} else
    var n := |code| - 1;
    ExternalsIn(c, code[..n]) + if InsnOf(c, code[n]).Some? then AsSet(c.ExternalOf(InsnOf(c, code[n]).value)) else {}
  }

  function PointersIn(c: Context, code: seq<CodeRange>): set<Address> {
    if code == [] then {} else
    var n := |code| - 1;
    PointersIn(c, code[..n]) + if InsnOf(c, code[n]).Some? then AsSet(c.PointerOf(InsnOf(c, code[n]).value)) else {}
  }

  predicate Calls(c: Context, r: CodeRange, x: (Address, RootKind)) {
    InsnOf(c, r).Some? && c.RootOf(InsnOf(c, r).value) == Some(x)
  }

  ghost predicate RootsFrom(c: Context, code: seq<CodeRange>, roots: seq<(Address, RootKind)>) {
    && (forall i, x :: 0 <= i < |code| && Calls(c, code[i], x) ==> x in roots)
    && (forall x :: x in roots ==> exists i :: 0 <= i < |code| && Calls(c, code[i], x))
  }

  /** Instruction `i + 1` lies behind instruction `i`. */
  predicate Behind(code: seq<CodeRange>, i: nat)
    requires i + 1 < |code|
  {
    code[i].offset + code[i].len <= code[i + 1].offset
  }

  ghost predicate Ordered(code: seq<CodeRange>) {
    forall i :: 0 <= i < |code| - 1 ==> Behind(code, i)
  }

  predicate AtEntry(c: Context, r: CodeRange) {
    0x8000 + r.offset == c.entry
  }

  /** Each instruction lies behind the one before, except where a pass starts over at the entry. */
  ghost predicate OrderedPasses(c: Context, code: seq<CodeRange>) {
    forall i :: 0 <= i < |code| - 1 ==> Behind(code, i) || AtEntry(c, code[i + 1])
  }

  /** First address after the last decoded instruction, before wrapping. */
  function CodeEnd(c: Context, code: seq<CodeRange>): nat {
    if code == [] then c.entry else 0x8000 + code[|code| - 1].offset + code[|code| - 1].len
  }

  ghost predicate AllVisited(c: Context, code: seq<CodeRange>) {
    (forall i :: 0 <= i < |code| ==> Visited(c, code[i]) && c.entry <= 0x8000 + code[i].offset) && OrderedPasses(c, code)
  }

  /** The address sets are what the decoded instructions contribute. */
  ghost predicate Contributed(c: Context, s: WalkState) {
    && s.targets == {c.entry} + LabelsIn(c, s.code)
    && s.labels == LabelsIn(c, s.code) - {c.entry}
    && s.externals == ExternalsIn(c, s.code)
    && s.unresolved == PointersIn(c, s.code)
    && (s.code != [] ==> c.entry !in c.facts.data)
    && (forall t :: t in LabelsIn(c, s.code) ==> c.entry <= t)
  }

  /** The state holds exactly what the decoded instructions contribute. */
  ghost predicate Gathered(c: Context, s: WalkState) {
    AllVisited(c, s.code) && Contributed(c, s) && RootsFrom(c, s.code, s.roots)
  }

  lemma AbsorbRoots(c: Context, s: WalkState, insn: Instruction)
    requires 0x8000 <= insn.pc && c.Decoded(insn.pc) == Some(insn) && RootsFrom(c, s.code, s.roots)
    ensures RootsFrom(c, Absorb(c, s, insn).code, Absorb(c, s, insn).roots)
  {
    var s' := Absorb(c, s, insn);
    var n := |s.code|;
    assert InsnOf(c, s'.code[n]) == Some(insn);
    forall i, x | 0 <= i < |s'.code| && Calls(c, s'.code[i], x)
      ensures x in s'.roots
    {
      if i < n { assert Calls(c, s.code[i], x); }
    }
    forall x | x in s'.roots
      ensures exists i :: 0 <= i < |s'.code| && Calls(c, s'.code[i], x)
    {
      if x in s.roots {
        var i :| 0 <= i < n && Calls(c, s.code[i], x);
        assert Calls(c, s'.code[i], x);
      } else {
        assert Calls(c, s'.code[n], x);
      }
    }
  }

  lemma AbsorbVisits(c: Context, code: seq<CodeRange>, r: CodeRange)
    requires AllVisited(c, code) && Visited(c, r) && c.entry <= 0x8000 + r.offset
    requires AtEntry(c, r) || CodeEnd(c, code) <= 0x8000 + r.offset
    ensures AllVisited(c, code + [r])
  {
    var longer := code + [r];
    forall i | 0 <= i < |longer| - 1
      ensures Behind(longer, i) || AtEntry(c, longer[i + 1])
    {
      if i < |code| - 1 { assert Behind(code, i) || AtEntry(c, code[i + 1]); }
    }
  }

  /** One more instruction adds its label, its external reference and its pointer. */
  lemma InMore(c: Context, code: seq<CodeRange>, insn: Instruction)
    requires 0x8000 <= insn.pc && c.Decoded(insn.pc) == Some(insn)
    ensures var longer := code + [CodeRange(insn.pc - 0x8000, insn.size)];
            && LabelsIn(c, longer) == LabelsIn(c, code) + AsSet(c.LabelOf(insn))
            && ExternalsIn(c, longer) == ExternalsIn(c, code) + AsSet(c.ExternalOf(insn))
            && PointersIn(c, longer) == PointersIn(c, code) + AsSet(c.PointerOf(insn))
  {
    var r := CodeRange(insn.pc - 0x8000, insn.size);
    assert (code + [r])[..|code|] == code;
    assert InsnOf(c, r) == Some(insn);
  }

  lemma AbsorbContributes(c: Context, s: WalkState, insn: Instruction)
    requires Contributed(c, s) && c.Decoded(insn.pc) == Some(insn) && StopBefore(c, insn.pc).None?
    requires insn.pc == c.entry || s.code != []
    ensures Contributed(c, Absorb(c, s, insn))
  {
    InMore(c, s.code, insn);
    TargetsFromEntryOn(c, insn);
    var more := LabelsIn(c, s.code) + AsSet(c.LabelOf(insn));
    assert more - {c.entry} == (LabelsIn(c, s.code) - {c.entry}) + (AsSet(c.LabelOf(insn)) - {c.entry});
    assert {c.entry} + more == ({c.entry} + LabelsIn(c, s.code)) + AsSet(c.LabelOf(insn));
  }

  lemma AbsorbGathers(c: Context, s: WalkState, insn: Instruction)
    requires Gathered(c, s) && c.Decoded(insn.pc) == Some(insn) && StopBefore(c, insn.pc).None?
    requires insn.pc == c.entry || (s.code != [] && c.entry <= insn.pc && CodeEnd(c, s.code) <= insn.pc)
    ensures Gathered(c, Absorb(c, s, insn)) && CodeEnd(c, Absorb(c, s, insn).code) == insn.pc + insn.size
  {
    AbsorbRoots(c, s, insn);
    AbsorbContributes(c, s, insn);
    AbsorbVisits(c, s.code, CodeRange(insn.pc - 0x8000, insn.size));
  }

  /** The walk may decode at `pc`. */
  ghost predicate Reached(c: Context, s: WalkState, pc: Address) {
    && Gathered(c, s)
    && (pc < 0x8000 || pc == c.entry || (s.code != [] && c.entry <= pc && CodeEnd(c, s.code) <= pc))
  }

  lemma LaterIsReached(c: Context, s: WalkState, insn: Instruction, pc': Address)
    requires Gathered(c, s) && s.code != [] && CodeEnd(c, s.code) == insn.pc + insn.size && 0 < insn.size <= 3
    requires c.entry <= insn.pc && 0x8000 <= insn.pc
    requires GoOn(c, s.targets, insn) == Continue(pc') && !(c.Ends(insn) && pc' <= insn.pc)
    ensures Reached(c, s, pc')
  {
    assert c.entry in s.targets;
  }

  lemma DecodedShape(c: Context, pc: Address)
    requires StopBefore(c, pc).None?
    ensures var insn := c.Decoded(pc).value;
            insn.pc == pc && 0 < insn.size <= 3 && 0x8000 <= pc && c.Decoded(insn.pc) == Some(insn)
  {
  }

  lemma {:induction false} PassGathers(c: Context, s: WalkState, pc: Address)
    requires Reached(c, s, pc)
    ensures Gathered(c, PassFrom(c, s, pc).state)
    decreases if pc >= 0x8000 then 0x1_0000 - pc else 0
  {
    if StopBefore(c, pc).None? {
      var insn := c.Decoded(pc).value;
      DecodedShape(c, pc);
      TurnOfPass(c, s, pc);
      AbsorbGathers(c, s, insn);
      var s' := Absorb(c, s, insn);
      var next := GoOn(c, s'.targets, insn);
      if next.Continue? && !(c.Ends(insn) && next.pc <= pc) {
        LaterIsReached(c, s', insn, next.pc);
        PassGathers(c, s', next.pc);
      }
    }
  }

  lemma {:induction false} WalkGathers(c: Context, s: WalkState) returns (t: WalkState)
    requires Gathered(c, s)
    ensures var w := WalkFrom(c, s);
            w.Walked? ==> Gathered(c, t) && w == CleanUp(c, w.end, w.ending, t)
    decreases Untried(s.targets)
  {
    PassGathers(c, s, c.entry);
    var pass := PassFrom(c, s, c.entry);
    t := pass.state;
    if pass.Restarts? && t.targets != s.targets {
      UntriedShrinks(s.targets, t.targets);
      t := WalkGathers(c, t);
    }
  }

  // ----- a walk of one pass -----

  /** What holds within the first pass. */
  ghost predicate OnePass(c: Context, s: WalkState) {
    && Ordered(s.code)
    && forall t :: t in LabelsIn(c, s.code) && t in c.facts.data ==> t < CodeEnd(c, s.code)
  }

  ghost predicate Complete(c: Context, code: seq<CodeRange>, end: Address) {
    end == CodeEnd(c, code) && forall t :: t in LabelsIn(c, code) ==> t < end
  }

  lemma AbsorbOrdered(code: seq<CodeRange>, r: CodeRange)
    requires Ordered(code) && (code != [] ==> code[|code| - 1].offset + code[|code| - 1].len <= r.offset)
    ensures Ordered(code + [r])
  {
    forall i | 0 <= i < |code|
      ensures Behind(code + [r], i)
    {
      if i < |code| - 1 { assert Behind(code, i); }
    }
  }

  lemma LabelInData(c: Context, insn: Instruction)
    requires 0 <= insn.size
    ensures forall t :: t in AsSet(c.LabelOf(insn)) && t in c.facts.data ==> t < insn.pc + insn.size
  {
  }

  lemma AbsorbOnePass(c: Context, s: WalkState, insn: Instruction)
    requires OnePass(c, s) && c.Decoded(insn.pc) == Some(insn) && StopBefore(c, insn.pc).None?
    requires s.code != [] ==> CodeEnd(c, s.code) <= insn.pc
    ensures OnePass(c, Absorb(c, s, insn))
  {
    var r := CodeRange(insn.pc - 0x8000, insn.size);
    InMore(c, s.code, insn);
    LabelInData(c, insn);
    AbsorbOrdered(s.code, r);
  }

  lemma StopCompletes(c: Context, s: WalkState, insn: Instruction)
    requires Gathered(c, s) && OnePass(c, s) && s.code != []
    requires CodeEnd(c, s.code) == insn.pc + insn.size && 0 < insn.size <= 3
    requires c.entry <= insn.pc && StopBefore(c, insn.pc).None? && FirstPending(s.targets, c.facts.data, Next(insn)).None?
    ensures Complete(c, s.code, Next(insn))
  {
    assert c.entry in s.targets;
  }

  ghost predicate FirstReached(c: Context, s: WalkState, pc: Address) {
    && Reached(c, s, pc) && OnePass(c, s) && (s.code == [] ==> pc == c.entry)
    && (s.code != [] ==> pc < 0x8000 || CodeEnd(c, s.code) <= pc)
  }

  /** One turn within the first pass. */
  lemma FirstTurn(c: Context, s: WalkState, insn: Instruction)
    requires Gathered(c, s) && OnePass(c, s) && c.Decoded(insn.pc) == Some(insn) && StopBefore(c, insn.pc).None?
    requires c.entry <= insn.pc && if s.code == [] then insn.pc == c.entry else CodeEnd(c, s.code) <= insn.pc
    ensures var s' := Absorb(c, s, insn);
            Gathered(c, s') && OnePass(c, s') && s'.code != [] && CodeEnd(c, s'.code) == insn.pc + insn.size
  {
    AbsorbGathers(c, s, insn);
    AbsorbOnePass(c, s, insn);
  }

  lemma LaterIsFirstReached(c: Context, s: WalkState, insn: Instruction, pc': Address)
    requires Gathered(c, s) && OnePass(c, s) && s.code != []
    requires CodeEnd(c, s.code) == insn.pc + insn.size && 0 < insn.size <= 3
    requires c.entry <= insn.pc && 0x8000 <= insn.pc
    requires GoOn(c, s.targets, insn) == Continue(pc') && !(c.Ends(insn) && pc' <= insn.pc)
    ensures FirstReached(c, s, pc')
  {
    LaterIsReached(c, s, insn, pc');
    assert c.entry in s.targets;
  }

  lemma {:induction false} FirstPassSettles(c: Context, s: WalkState, pc: Address)
    requires FirstReached(c, s, pc)
    ensures var pass := PassFrom(c, s, pc);
            pass.Done? ==> OnePass(c, pass.state) && (pass.ending.Finished? ==> Complete(c, pass.state.code, pass.end))
    decreases if pc >= 0x8000 then 0x1_0000 - pc else 0
  {
    if StopBefore(c, pc).None? {
      var insn := c.Decoded(pc).value;
      DecodedShape(c, pc);
      FirstTurn(c, s, insn);
      TurnOfPass(c, s, pc);
      var s' := Absorb(c, s, insn);
      var next := GoOn(c, s'.targets, insn);
      if next.Stop? {
        StopCompletes(c, s', insn);
      } else if !(c.Ends(insn) && next.pc <= pc) {
        LaterIsFirstReached(c, s', insn, next.pc);
        FirstPassSettles(c, s', next.pc);
      }
    }
  }

  /**
   The walk visits instructions inside the window, the size bound and the non-data bytes, each
   behind the one before except where a pass starts over, and gathers exactly their targets.
   A walk of one pass is strictly increasing, and one that finishes at a terminator loses no
   label to the final clean-up.
   */
  lemma WalkMeaning(c: Context)
    requires WalkFunction(c).Walked?
    ensures var w := WalkFunction(c);
            && AllVisited(c, w.state.code)
            && w.state.externals == ExternalsIn(c, w.state.code)
            && w.state.unresolved == PointersIn(c, w.state.code)
            && RootsFrom(c, w.state.code, w.state.roots)
            && w.state.labels == Retained(c.entry, w.end, LabelsIn(c, w.state.code)) - {c.entry}
    ensures var w := WalkFunction(c);
            PassFrom(c, Start(c), c.entry).Done? ==>
              && Ordered(w.state.code)
              && (w.ending.Finished? ==> w.state.labels == LabelsIn(c, w.state.code) - {c.entry})
  {
    var w := WalkFunction(c);
    var t := WalkGathers(c, Start(c));
    FirstPassSettles(c, Start(c), c.entry);
  }

  // ----- exactly when a walk restarts -----

  /** The walk from `pc` decodes the instruction at `at`. */
  predicate Decodes(c: Context, s: WalkState, pc: Address, at: Address)
    decreases if pc >= 0x8000 then 0x1_0000 - pc else 0
  {
    StopBefore(c, pc).None? &&
    (at == pc ||
     var insn := c.Decoded(pc).value;
     var s' := Absorb(c, s, insn);
     var next := GoOn(c, s'.targets, insn);
     next.Continue? && !(c.Ends(insn) && next.pc <= pc) && Decodes(c, s', next.pc, at))
  }

  /** An ending instruction whose last byte is $FFFF. */
  predicate EndsAtTop(c: Context, at: Address) {
    var insn := c.Decoded(at);
    insn.Some? && c.Ends(insn.value) && at + insn.value.size == 0x1_0000
  }

  /** A 32 KiB image has nothing past $FFFF. */
  lemma InsideImage(c: Context, pc: Address)
    requires |c.prg| <= 0x8000 && c.Decoded(pc).Some?
    ensures pc + c.Decoded(pc).value.size <= 0x1_0000
  {
  }

  /** On an ending instruction the next pending target lies behind it, except when the search wraps at $FFFF. */
  lemma StepsBackOnlyAtTop(c: Context, targets: set<Address>, pc: Address)
    requires |c.prg| <= 0x8000 && c.Decoded(pc).Some? && c.Ends(c.Decoded(pc).value)
    requires c.entry in targets && c.entry !in c.facts.data && c.entry <= pc
    ensures var next := GoOn(c, targets, c.Decoded(pc).value);
            (next.Continue? && next.pc <= pc) <==> EndsAtTop(c, pc)
  {
    InsideImage(c, pc);
  }

  ghost predicate SomeEndAtTop(c: Context, s: WalkState, pc: Address) {
    exists at :: Decodes(c, s, pc, at) && EndsAtTop(c, at)
  }

  lemma {:induction false} RestartsFromIff(c: Context, s: WalkState, pc: Address)
    requires |c.prg| <= 0x8000 && c.entry in s.targets && (pc == c.entry || (c.entry <= pc && c.entry !in c.facts.data) || pc < 0x8000)
    ensures PassFrom(c, s, pc).Restarts? <==> SomeEndAtTop(c, s, pc)
    decreases if pc >= 0x8000 then 0x1_0000 - pc else 0
  {
    if StopBefore(c, pc).None? {
      var insn := c.Decoded(pc).value;
      var s' := Absorb(c, s, insn);
      var next := GoOn(c, s'.targets, insn);
      InsideImage(c, pc);
      assert Decodes(c, s, pc, pc);
      if c.Ends(insn) {
        StepsBackOnlyAtTop(c, s'.targets, pc);
      }
      if next.Continue? && !(c.Ends(insn) && next.pc <= pc) {
        RestartsFromIff(c, s', next.pc);
        LaterDecodes(c, s, pc);
      }
    }
  }

  /** Beyond a first instruction that does not restart, the walks decode alike. */
  lemma LaterDecodes(c: Context, s: WalkState, pc: Address)
    requires StopBefore(c, pc).None?
    requires var insn := c.Decoded(pc).value;
             var next := GoOn(c, Absorb(c, s, insn).targets, insn);
             next.Continue? && !(c.Ends(insn) && next.pc <= pc)
    ensures var insn := c.Decoded(pc).value;
            var s' := Absorb(c, s, insn);
            SomeEndAtTop(c, s, pc) <==> EndsAtTop(c, pc) || SomeEndAtTop(c, s', GoOn(c, s'.targets, insn).pc)
  {
    var insn := c.Decoded(pc).value;
    var s' := Absorb(c, s, insn);
    var pc' := GoOn(c, s'.targets, insn).pc;
    assert Decodes(c, s, pc, pc);
    forall at | Decodes(c, s', pc', at)
      ensures Decodes(c, s, pc, at)
    {
    }
  }

  /** A walk over a 32 KiB image restarts if and only if it decodes an ending instruction whose last byte is $FFFF. */
  lemma RestartsIff(c: Context)
    requires |c.prg| <= 0x8000
    ensures PassFrom(c, Start(c), c.entry).Restarts? <==> SomeEndAtTop(c, Start(c), c.entry)
  {
    RestartsFromIff(c, Start(c), c.entry);
  }

  /** The decoded instruction lies in the window. */
  lemma {:induction false} DecodesInWindow(c: Context, s: WalkState, pc: Address, at: Address)
    requires Decodes(c, s, pc, at)
    ensures c.window.Contains(at)
    decreases if pc >= 0x8000 then 0x1_0000 - pc else 0
  {
    if at != pc {
      var insn := c.Decoded(pc).value;
      var s' := Absorb(c, s, insn);
      DecodesInWindow(c, s', GoOn(c, s'.targets, insn).pc, at);
    }
  }

  /** Without an ending instruction at the top of the window no walk restarts. */
  lemma NothingAtTopNeverRestarts(c: Context)
    requires |c.prg| <= 0x8000 && forall at :: c.window.Contains(at) ==> !EndsAtTop(c, at)
    ensures WalkFunction(c).Walked?
  {
    RestartsIff(c);
    forall at | Decodes(c, Start(c), c.entry, at)
      ensures c.window.Contains(at)
    {
      DecodesInWindow(c, Start(c), c.entry, at);
    }
    var pass := PassFrom(c, Start(c), c.entry);
    assert WalkFunction(c) == After(c, {c.entry}, pass) == CleanUp(c, pass.end, pass.ending, pass.state);
  }

  // ----- what the source's loop does -----

  /** One turn of the loop as it stands: it never looks back. */
  datatype Turn = Out(end: Address, ending: Ending, state: WalkState) | Goes(state: WalkState, pc: Address)

  function TurnAt(c: Context, s: WalkState, pc: Address): Turn {
    var stop := StopBefore(c, pc);
    if stop.Some? then Out(pc, stop.value, s)
    else
      var insn := c.Decoded(pc).value;
      var s' := Absorb(c, s, insn);
      match GoOn(c, s'.targets, insn)
      case Stop(end, ending) => Out(end, ending, s')
      case Continue(pc') => Goes(s', pc')
  }

  function Turns(c: Context, s: WalkState, pc: Address, n: nat): Turn
    decreases n
  {
    if n == 0 then Goes(s, pc)
    else
      match TurnAt(c, s, pc)
      case Out(end, ending, t) => Out(end, ending, t)
      case Goes(t, next) => Turns(c, t, next, n - 1)
  }

  lemma {:induction false} TurnsAdd(c: Context, s: WalkState, pc: Address, a: nat, b: nat)
    requires Turns(c, s, pc, a).Goes?
    ensures Turns(c, s, pc, a + b) == Turns(c, Turns(c, s, pc, a).state, Turns(c, s, pc, a).pc, b)
    decreases a
  {
    if a > 0 {
      var one := TurnAt(c, s, pc);
      TurnsAdd(c, one.state, one.pc, a - 1, b);
    }
  }

  lemma {:induction false} GoesBefore(c: Context, s: WalkState, pc: Address, m: nat, n: nat)
    requires m <= n && Turns(c, s, pc, n).Goes?
    ensures Turns(c, s, pc, m).Goes?
    decreases m
  {
    if m > 0 {
      var one := TurnAt(c, s, pc);
      GoesBefore(c, one.state, one.pc, m - 1, n - 1);
    }
  }

  /** A pass is a number of turns, and one that restarts ends at the entry. */
  lemma {:induction false} PassTurns(c: Context, s: WalkState, pc: Address) returns (n: nat)
    requires InWalk(c, s, pc)
    ensures match PassFrom(c, s, pc)
            case Done(end, ending, t) => Turns(c, s, pc, n) == Out(end, ending, t)
            case Restarts(t) => n > 0 && Turns(c, s, pc, n) == Goes(t, c.entry) && InWalk(c, t, c.entry)
    decreases if pc >= 0x8000 then 0x1_0000 - pc else 0
  {
    hide Absorb, GoOn;
    n := 1;
    if StopBefore(c, pc).None? {
      TurnStaysInWalk(c, s, pc);
      TurnOfPass(c, s, pc);
      var insn := c.Decoded(pc).value;
      var s' := Absorb(c, s, insn);
      var go := GoOn(c, s'.targets, insn);
      if go.Continue? && !(c.Ends(insn) && go.pc <= pc) {
        n := PassTurns(c, s', go.pc);
        n := n + 1;
      } else {
        assert Turns(c, s, pc, 1) == if go.Stop? then Out(go.end, go.ending, s') else Turns(c, s', go.pc, 0);
      }
    }
  }

  /** Control depends on the state only through its targets. */
  predicate Alike(a: Turn, b: Turn) {
    if a.Goes? then b.Goes? && a.pc == b.pc && a.state.targets == b.state.targets else b.Out?
  }

  lemma {:induction false} TurnsAlike(c: Context, s: WalkState, t: WalkState, pc: Address, n: nat)
    requires s.targets == t.targets
    ensures Alike(Turns(c, s, pc, n), Turns(c, t, pc, n))
    decreases n
  {
    if n > 0 && TurnAt(c, s, pc).Goes? {
      TurnsAlike(c, TurnAt(c, s, pc).state, TurnAt(c, t, pc).state, TurnAt(c, s, pc).pc, n - 1);
    }
  }

  /** A pass that comes back to the entry with the targets it began with is repeated for ever. */
  lemma {:induction false} UnchangedPassRepeats(c: Context, s: WalkState, k: nat, n: nat)
    requires k > 0 && Turns(c, s, c.entry, k).Goes? && Turns(c, s, c.entry, k).pc == c.entry
    requires Turns(c, s, c.entry, k).state.targets == s.targets
    ensures Turns(c, s, c.entry, n).Goes?
    decreases n
  {
    if n <= k {
      GoesBefore(c, s, c.entry, n, k);
    } else {
      UnchangedPassRepeats(c, s, k, n - k);
      TurnsAdd(c, s, c.entry, k, n - k);
      TurnsAlike(c, s, Turns(c, s, c.entry, k).state, c.entry, n - k);
    }
  }

  lemma {:induction false} EndlessGoesOn(c: Context, s: WalkState, n: nat)
    requires InWalk(c, s, c.entry) && WalkFrom(c, s).Endless?
    ensures Turns(c, s, c.entry, n).Goes?
    decreases Untried(s.targets), n
  {
    hide PassFrom, Turns, InWalk;
    var k := PassTurns(c, s, c.entry);
    var t := PassFrom(c, s, c.entry).state;
    if t.targets == s.targets {
      UnchangedPassRepeats(c, s, k, n);
    } else if n <= k {
      GoesBefore(c, s, c.entry, n, k);
    } else {
      UntriedShrinks(s.targets, t.targets);
      EndlessGoesOn(c, t, n - k);
      TurnsAdd(c, s, c.entry, k, n - k);
    }
  }

  lemma {:induction false} WalkedGoesOut(c: Context, s: WalkState) returns (n: nat, t: WalkState)
    requires InWalk(c, s, c.entry) && WalkFrom(c, s).Walked?
    ensures var w := WalkFrom(c, s);
            Turns(c, s, c.entry, n) == Out(w.end, w.ending, t) && w == CleanUp(c, w.end, w.ending, t)
    decreases Untried(s.targets)
  {
    hide PassFrom, Turns, InWalk;
    var k := PassTurns(c, s, c.entry);
    t := PassFrom(c, s, c.entry).state;
    n := k;
    if PassFrom(c, s, c.entry).Restarts? {
      UntriedShrinks(s.targets, t.targets);
      var more, last := WalkedGoesOut(c, t);
      TurnsAdd(c, s, c.entry, k, more);
      n, t := k + more, last;
    }
  }

  /** The loop ends, with this end, ending and state. */
  ghost predicate EndsWith(c: Context, end: Address, ending: Ending, t: WalkState) {
    exists n: nat :: Turns(c, Start(c), c.entry, n) == Out(end, ending, t)
  }

  /**
   The walk is endless exactly when the source's loop never ends, that is when some pass starts
   over at the entry without having added a target; otherwise it is what the loop ends with,
   after the clean-up.
   */
  lemma WalkIsTheLoop(c: Context)
    ensures WalkFunction(c).Endless? <==> forall n: nat :: Turns(c, Start(c), c.entry, n).Goes?
    ensures WalkFunction(c).Walked? ==>
              var w := WalkFunction(c);
              exists t :: EndsWith(c, w.end, w.ending, t) && w == CleanUp(c, w.end, w.ending, t)
  {
    if WalkFunction(c).Endless? {
      forall n: nat
        ensures Turns(c, Start(c), c.entry, n).Goes?
      {
        EndlessGoesOn(c, Start(c), n);
      }
    } else {
      var n, t := WalkedGoesOut(c, Start(c));
      assert Turns(c, Start(c), c.entry, n).Out?;
      assert EndsWith(c, WalkFunction(c).end, WalkFunction(c).ending, t);
    }
  }

  /** An absolute jump in the last three bytes, walked as a function, is walked for ever. */
  lemma JumpAtTopIsEndless(c: Context)
    requires c.entry == 0xFFFD && StopBefore(c, 0xFFFD).None?
    requires c.Decoded(0xFFFD).value.mnemonic.JMP? && c.Decoded(0xFFFD).value.size == 3
    ensures WalkFunction(c).Endless?
  {
    var insn := c.Decoded(0xFFFD).value;
    assert Absorb(c, Start(c), insn).targets == {0xFFFD};
    assert FirstPending({0xFFFD}, c.facts.data, Next(insn)) == Some(0xFFFD);
  }
}
