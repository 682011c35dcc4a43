/**
 What walking a function records, and which instructions it comes to, read off the decoded
 instructions and the profile alone.
 */
module WalkLaws {
  import opened Bytes
  import opened Cpu6502
  import opened FunctionWalk

  // ----- what one instruction refers to -----

  predicate InWindow(c: Context, a: Address) {
    c.window.start <= a <= c.window.last
  }

  predicate IsBranchTo(insn: Instruction, a: Address) {
    insn.IsBranch() && insn.BranchTarget() == Some(a)
  }

  predicate IsJumpTo(insn: Instruction, a: Address) {
    insn.mnemonic.JMP? && insn.mode.Absolute? && insn.operand == Addr(a)
  }

  /** A call that is no annotated dispatch. */
  predicate IsCallTo(c: Context, insn: Instruction, a: Address) {
    insn.mnemonic.JSR? && insn.mode.Absolute? && insn.operand == Addr(a) && insn.pc !in c.facts.engines
  }

  /** A branch stays inside: from the entry on, short of 4096 bytes and of $FFFF, to no other root and to no data. */
  predicate BranchesInside(c: Context, insn: Instruction, a: Address) {
    && IsBranchTo(insn, a)
    && c.entry <= a < c.entry + 4096 && a < 0xFFFF
    && (a in c.known ==> a == c.entry) && a !in c.facts.data && InWindow(c, a)
  }

  /** A jump closes a loop: from the entry on, short of the instruction behind it, to no root. */
  predicate JumpsBack(c: Context, insn: Instruction, a: Address) {
    && IsJumpTo(insn, a)
    && c.entry <= a < (insn.pc + insn.size) % 0x1_0000
    && a !in c.known && InWindow(c, a)
  }

  predicate NamesLabel(c: Context, insn: Instruction, a: Address) {
    BranchesInside(c, insn, a) || JumpsBack(c, insn, a)
  }

  predicate NamesExternal(c: Context, insn: Instruction, a: Address) {
    (IsBranchTo(insn, a) || IsJumpTo(insn, a) || IsCallTo(c, insn, a)) && !NamesLabel(c, insn, a)
  }

  predicate NamesPointer(insn: Instruction, a: Address) {
    insn.mnemonic.JMP? && insn.mode.Indirect? && insn.operand == Addr(a)
  }

  /** Calls and jumps that close no loop name new functions, when these lie in the window. */
  predicate NamesFunction(c: Context, insn: Instruction, a: Address, kind: RootKind) {
    && InWindow(c, a)
    && ((kind.JsrCallee? && IsCallTo(c, insn, a)) || (kind.JmpTarget? && IsJumpTo(insn, a) && !JumpsBack(c, insn, a)))
  }

  /** What an instruction contributes is what it names. */
  lemma ContributesWhatItNames(c: Context, insn: Instruction, a: Address, kind: RootKind)
    ensures c.LabelOf(insn) == Some(a) <==> NamesLabel(c, insn, a)
    ensures c.ExternalOf(insn) == Some(a) <==> NamesExternal(c, insn, a)
    ensures c.PointerOf(insn) == Some(a) <==> NamesPointer(insn, a)
    ensures c.RootOf(insn) == Some((a, kind)) <==> NamesFunction(c, insn, a, kind)
  {
  }

  // ----- what a walk records -----

  /** The walk decoded an instruction that satisfies `p`. */
  ghost predicate SomeDecoded(c: Context, code: seq<CodeRange>, p: Instruction -> bool) {
    exists i :: 0 <= i < |code| && DecodedAs(c, code[i], p)
  }

  predicate DecodedAs(c: Context, r: CodeRange, p: Instruction -> bool) {
    InsnOf(c, r).Some? && p(InsnOf(c, r).value)
  }

  ghost predicate LabelNamed(c: Context, code: seq<CodeRange>, a: Address) {
    SomeDecoded(c, code, insn => NamesLabel(c, insn, a))
  }

  ghost predicate ExternalNamed(c: Context, code: seq<CodeRange>, a: Address) {
    SomeDecoded(c, code, insn => NamesExternal(c, insn, a))
  }

  ghost predicate PointerNamed(c: Context, code: seq<CodeRange>, a: Address) {
    SomeDecoded(c, code, insn => NamesPointer(insn, a))
  }

  ghost predicate FunctionNamed(c: Context, code: seq<CodeRange>, a: Address, kind: RootKind) {
    SomeDecoded(c, code, insn => NamesFunction(c, insn, a, kind))
  }

  lemma SomeDecodedSplits(c: Context, code: seq<CodeRange>, p: Instruction -> bool)
    requires code != []
    ensures SomeDecoded(c, code, p) <==> SomeDecoded(c, code[..|code| - 1], p) || DecodedAs(c, code[|code| - 1], p)
  {
    var front := code[..|code| - 1];
    if SomeDecoded(c, front, p) {
      var i :| 0 <= i < |front| && DecodedAs(c, front[i], p);
      assert code[i] == front[i];
    }
    if SomeDecoded(c, code, p) {
      var i :| 0 <= i < |code| && DecodedAs(c, code[i], p);
      assert i < |front| ==> code[i] == front[i];
    }
  }

  lemma {:induction false} CollectedAreNamed(c: Context, code: seq<CodeRange>, a: Address)
    ensures a in LabelsIn(c, code) <==> LabelNamed(c, code, a)
    ensures a in ExternalsIn(c, code) <==> ExternalNamed(c, code, a)
    ensures a in PointersIn(c, code) <==> PointerNamed(c, code, a)
  {
    hide NamesLabel, NamesExternal, NamesPointer, NamesFunction, SomeDecoded;
    hide Context.LabelOf, Context.ExternalOf, Context.PointerOf, Context.RootOf;
    if code == [] {
      NothingDecoded(c, insn => NamesLabel(c, insn, a));
      NothingDecoded(c, insn => NamesExternal(c, insn, a));
      NothingDecoded(c, insn => NamesPointer(insn, a));
    } else {
      CollectedAreNamed(c, code[..|code| - 1], a);
      SomeDecodedSplits(c, code, insn => NamesLabel(c, insn, a));
      SomeDecodedSplits(c, code, insn => NamesExternal(c, insn, a));
      SomeDecodedSplits(c, code, insn => NamesPointer(insn, a));
      var last := InsnOf(c, code[|code| - 1]);
      if last.Some? {
        ContributesWhatItNames(c, last.value, a, JsrCallee);
      }
    }
  }

  lemma NothingDecoded(c: Context, p: Instruction -> bool)
    ensures !SomeDecoded(c, [], p)
  {
  }

  /**
   What a walk records, on the instructions it decoded: its labels are the in-between targets they
   name, its external references the other ones, its unresolved pointers those of indirect jumps,
   and its new roots the functions they call or jump to.
   */
  lemma WalkRecords(c: Context, a: Address, kind: RootKind)
    requires WalkFunction(c).Walked?
    ensures var w := WalkFunction(c);
            && (a in w.state.labels <==> LabelNamed(c, w.state.code, a) && c.entry < a < w.end)
            && (a in w.state.externals <==> ExternalNamed(c, w.state.code, a))
            && (a in w.state.unresolved <==> PointerNamed(c, w.state.code, a))
            && ((a, kind) in w.state.roots <==> FunctionNamed(c, w.state.code, a, kind))
  {
    hide PassFrom, WalkFunction, NamesLabel, NamesExternal, NamesPointer, NamesFunction, SomeDecoded, AllVisited, Ordered, RootsFrom;
    var w := WalkFunction(c);
    WalkMeaning(c);
    CollectedAreNamed(c, w.state.code, a);
    RootsAreNamed(c, w.state.code, w.state.roots, a, kind);
  }

  lemma RootsAreNamed(c: Context, code: seq<CodeRange>, roots: seq<(Address, RootKind)>, a: Address, kind: RootKind)
    requires RootsFrom(c, code, roots)
    ensures (a, kind) in roots <==> FunctionNamed(c, code, a, kind)
  {
    hide NamesLabel, NamesExternal, NamesPointer, NamesFunction, Context.LabelOf, Context.ExternalOf, Context.PointerOf, Context.RootOf;
    forall i | 0 <= i < |code|
      ensures Calls(c, code[i], (a, kind)) <==> DecodedAs(c, code[i], insn => NamesFunction(c, insn, a, kind))
    {
      if InsnOf(c, code[i]).Some? {
        ContributesWhatItNames(c, InsnOf(c, code[i]).value, a, kind);
      }
    }
  }

  // ----- which instructions a walk comes to -----

  /** A walk cannot continue at `pc`: outside the window, past the size bound, in data, or nothing decodes there. */
  ghost predicate StopsAt(c: Context, pc: Address, ending: Ending) {
    if !InWindow(c, pc) then ending == LeftImage
    else if pc >= c.entry + 4096 || pc == 0xFFFF then ending == Truncated
    else if pc in c.facts.data then ending == HitData
    else if pc < 0x8000 || DecodeAt(c.table, c.prg, pc, pc - 0x8000).None? then ending == LeftImage
    else DecodeAt(c.table, c.prg, pc, pc - 0x8000).value.mnemonic.JAM? && ending == HitData
  }

  ghost predicate RunsAt(c: Context, pc: Address) {
    forall ending :: !StopsAt(c, pc, ending)
  }

  /** Control does not fall out of it: a return, jump or trap, or an annotated dispatch call. */
  predicate EndsPath(c: Context, insn: Instruction) {
    || insn.mnemonic.RTS? || insn.mnemonic.RTI? || insn.mnemonic.JMP? || insn.mnemonic.BRK? || insn.mnemonic.JAM?
    || (insn.mnemonic.JSR? && insn.mode.Absolute? && insn.pc in c.facts.engines)
  }

  /** The entry, or a label some decoded instruction names; not data. */
  ghost predicate PendingTarget(c: Context, code: seq<CodeRange>, t: Address) {
    (t == c.entry || LabelNamed(c, code, t)) && t !in c.facts.data
  }

  function Behind(insn: Instruction): Address {
    (insn.pc + insn.size) % 0x1_0000
  }

  /** Where the walk goes from its last instruction: behind it, or from an ending one to the lowest pending target behind it. */
  ghost predicate GoesTo(c: Context, code: seq<CodeRange>, pc: Address) {
    if code == [] then pc == c.entry
    else
      var last := InsnOf(c, code[|code| - 1]);
      && last.Some?
      && if EndsPath(c, last.value) then
           && PendingTarget(c, code, pc) && Behind(last.value) <= pc
           && forall t: Address :: PendingTarget(c, code, t) && Behind(last.value) <= t ==> pc <= t
         else pc == Behind(last.value)
  }

  /** Nothing is pending behind the last instruction, which ends the path. */
  ghost predicate NothingPending(c: Context, code: seq<CodeRange>, end: Address) {
    && code != [] && InsnOf(c, code[|code| - 1]).Some?
    && var last := InsnOf(c, code[|code| - 1]).value;
       && EndsPath(c, last) && end == Behind(last)
       && forall t: Address :: PendingTarget(c, code, t) ==> t < end
  }

  /** Instruction `i` is decoded where the walk goes from the ones before it, and nothing stops the walk there. */
  ghost predicate ComesTo(c: Context, code: seq<CodeRange>, i: nat)
    requires i < |code|
  {
    && code[i].offset < 0x8000
    && InsnOf(c, code[i]).Some? && InsnOf(c, code[i]).value.size == code[i].len
    && RunsAt(c, 0x8000 + code[i].offset)
    && GoesTo(c, code[..i], 0x8000 + code[i].offset)
  }

  ghost predicate Traced(c: Context, code: seq<CodeRange>) {
    forall i :: 0 <= i < |code| ==> ComesTo(c, code, i)
  }

  /** The walk ends: where it cannot continue, or behind an ending instruction with nothing pending. */
  ghost predicate EndsAt(c: Context, code: seq<CodeRange>, end: Address, ending: Ending) {
    || (GoesTo(c, code, end) && StopsAt(c, end, ending))
    || (NothingPending(c, code, end) && ending == Finished)
  }

  lemma StopsIff(c: Context, pc: Address, ending: Ending)
    ensures StopBefore(c, pc) == Some(ending) <==> StopsAt(c, pc, ending)
    ensures StopBefore(c, pc).None? <==> RunsAt(c, pc)
  {
    if StopBefore(c, pc).Some? {
      assert StopsAt(c, pc, StopBefore(c, pc).value);
    }
  }

  lemma EndsIff(c: Context, insn: Instruction)
    ensures c.Ends(insn) <==> EndsPath(c, insn)
  {
  }

  lemma TracedMore(c: Context, code: seq<CodeRange>, r: CodeRange)
    requires Traced(c, code) && r.offset < 0x8000 && InsnOf(c, r).Some? && InsnOf(c, r).value.size == r.len
    requires StopBefore(c, 0x8000 + r.offset).None? && GoesTo(c, code, 0x8000 + r.offset)
    ensures Traced(c, code + [r])
  {
    hide GoesTo, RunsAt, StopBefore, InsnOf;
    var more := code + [r];
    StopsIff(c, 0x8000 + r.offset, LeftImage);
    forall i | 0 <= i < |more|
      ensures ComesTo(c, more, i)
    {
      if i < |code| {
        assert ComesTo(c, code, i);
        assert more[..i] == code[..i];
      } else {
        assert more[..i] == code;
      }
    }
  }

  /** The pending targets are those the state holds. */
  lemma PendingIsHeld(c: Context, s: WalkState, t: Address)
    requires Contributed(c, s)
    ensures PendingTarget(c, s.code, t) <==> t in s.targets && t !in c.facts.data
  {
    CollectedAreNamed(c, s.code, t);
  }

  lemma GoesWhereSaid(c: Context, s: WalkState, insn: Instruction)
    requires Contributed(c, s) && s.code != [] && InsnOf(c, s.code[|s.code| - 1]) == Some(insn)
    ensures var go := GoOn(c, s.targets, insn);
            if go.Continue? then GoesTo(c, s.code, go.pc)
            else go.ending == Finished && NothingPending(c, s.code, go.end)
  {
    hide Contributed, PendingTarget, EndsPath, Context.Ends;
    EndsIff(c, insn);
    forall t: Address
      ensures PendingTarget(c, s.code, t) <==> t in s.targets && t !in c.facts.data
    {
      PendingIsHeld(c, s, t);
    }
  }

  /** One turn from `pc` keeps the trace. */
  lemma TurnTraces(c: Context, s: WalkState, pc: Address)
    requires Gathered(c, s) && Traced(c, s.code) && GoesTo(c, s.code, pc) && StopBefore(c, pc).None?
    requires pc == c.entry || (s.code != [] && c.entry <= pc && CodeEnd(c, s.code) <= pc)
    ensures var insn := c.Decoded(pc).value;
            var s' := Absorb(c, s, insn);
            var go := GoOn(c, s'.targets, insn);
            && Gathered(c, s') && Traced(c, s'.code)
            && if go.Continue? then GoesTo(c, s'.code, go.pc) else EndsAt(c, s'.code, go.end, go.ending)
  {
    hide GoesTo, Traced, GoOn, Contributed, RootsFrom, AllVisited, NothingPending, StopsAt;
    var insn := c.Decoded(pc).value;
    DecodedShape(c, pc);
    AbsorbGathers(c, s, insn);
    var r := CodeRange(pc - 0x8000, insn.size);
    assert InsnOf(c, r) == Some(insn);
    TracedMore(c, s.code, r);
    var s' := Absorb(c, s, insn);
    assert s'.code == s.code + [r];
    GoesWhereSaid(c, s', insn);
  }

  lemma {:induction false} PassTraces(c: Context, s: WalkState, pc: Address)
    requires Reached(c, s, pc) && InWalk(c, s, pc) && Traced(c, s.code) && GoesTo(c, s.code, pc)
    ensures var pass := PassFrom(c, s, pc);
            && Traced(c, pass.state.code) && Gathered(c, pass.state)
            && (pass.Done? ==> EndsAt(c, pass.state.code, pass.end, pass.ending))
            && (pass.Restarts? ==> GoesTo(c, pass.state.code, c.entry) && InWalk(c, pass.state, c.entry))
    decreases if pc >= 0x8000 then 0x1_0000 - pc else 0
  {
    hide GoesTo, Traced, NothingPending, StopsAt, Contributed, RootsFrom, AllVisited, GoOn, Absorb;
    if StopBefore(c, pc).Some? {
      StopsIff(c, pc, StopBefore(c, pc).value);
    } else {
      var insn := c.Decoded(pc).value;
      DecodedShape(c, pc);
      TurnOfPass(c, s, pc);
      TurnTraces(c, s, pc);
      TurnStaysInWalk(c, s, pc);
      AbsorbGathers(c, s, insn);
      var s' := Absorb(c, s, insn);
      var next := GoOn(c, s'.targets, insn);
      if next.Continue? && !(c.Ends(insn) && next.pc <= pc) {
        AbsorbAdds(c, s, insn);
        LaterIsReached(c, s', insn, next.pc);
        PassTraces(c, s', next.pc);
      }
    }
  }

  lemma AbsorbAdds(c: Context, s: WalkState, insn: Instruction)
    requires 0x8000 <= insn.pc && 0 <= insn.size
    ensures Absorb(c, s, insn).code != []
  {
  }

  lemma {:induction false} WalkTraces(c: Context, s: WalkState) returns (t: WalkState)
    requires Gathered(c, s) && InWalk(c, s, c.entry) && Traced(c, s.code) && GoesTo(c, s.code, c.entry)
    ensures var w := WalkFrom(c, s);
            w.Walked? ==> w.state.code == t.code && Traced(c, t.code) && EndsAt(c, t.code, w.end, w.ending)
    decreases Untried(s.targets)
  {
    hide GoesTo, Traced, EndsAt, Gathered, InWalk, PassFrom;
    assert Reached(c, s, c.entry);
    PassTraces(c, s, c.entry);
    var pass := PassFrom(c, s, c.entry);
    t := pass.state;
    if pass.Restarts? && t.targets != s.targets {
      UntriedShrinks(s.targets, t.targets);
      t := WalkTraces(c, t);
    }
  }

  /**
   Which instructions a walk decodes: the first at the entry, each next one behind the one before
   or, after one that ends the path, at the lowest pending target behind it; and it ends where it
   cannot continue or nothing is pending.
   */
  lemma WalkIsTraced(c: Context)
    requires WalkFunction(c).Walked?
    ensures var w := WalkFunction(c);
            Traced(c, w.state.code) && EndsAt(c, w.state.code, w.end, w.ending)
  {
    hide PassFrom, GoesTo;
    StartGathers(c);
    var t := WalkTraces(c, FunctionWalk.Start(c));
  }

  lemma StartGathers(c: Context)
    ensures Gathered(c, FunctionWalk.Start(c)) && InWalk(c, FunctionWalk.Start(c), c.entry)
    ensures Traced(c, FunctionWalk.Start(c).code) && GoesTo(c, FunctionWalk.Start(c).code, c.entry)
  {
  }

  // ----- the trace is the only one -----

  lemma GoesToOnePlace(c: Context, code: seq<CodeRange>, p: Address, q: Address)
    requires GoesTo(c, code, p)
    ensures GoesTo(c, code, q) ==> p == q
    ensures !NothingPending(c, code, q)
  {
    hide PendingTarget, EndsPath;
  }

  lemma {:induction false} SamePrefix(c: Context, code: seq<CodeRange>, other: seq<CodeRange>, n: nat)
    requires Traced(c, code) && Traced(c, other) && n <= |code| && n <= |other|
    ensures code[..n] == other[..n]
  {
    hide GoesTo;
    if n > 0 {
      SamePrefix(c, code, other, n - 1);
      assert ComesTo(c, code, n - 1) && ComesTo(c, other, n - 1);
      GoesToOnePlace(c, code[..n - 1], 0x8000 + code[n - 1].offset, 0x8000 + other[n - 1].offset);
      assert code[..n] == code[..n - 1] + [code[n - 1]] && other[..n] == other[..n - 1] + [other[n - 1]];
    }
  }

  lemma NoLonger(c: Context, code: seq<CodeRange>, end: Address, ending: Ending, other: seq<CodeRange>)
    requires Traced(c, code) && Traced(c, other) && EndsAt(c, code, end, ending)
    ensures |other| <= |code|
  {
    hide GoesTo, NothingPending, StopsAt;
    var n := |code|;
    if n < |other| {
      SamePrefix(c, code, other, n);
      assert code[..n] == code;
      assert ComesTo(c, other, n);
      GoesToOnePlace(c, code, 0x8000 + other[n].offset, end);
    }
  }

  lemma StopsOneWay(c: Context, pc: Address, e: Ending, f: Ending)
    requires StopsAt(c, pc, e) && StopsAt(c, pc, f)
    ensures e == f
  {
  }

  lemma EndsOneWay(c: Context, code: seq<CodeRange>, end: Address, ending: Ending, end': Address, ending': Ending)
    requires EndsAt(c, code, end, ending) && EndsAt(c, code, end', ending')
    ensures end == end' && ending == ending'
  {
    hide GoesTo, StopsAt;
    if GoesTo(c, code, end) && StopsAt(c, end, ending) {
      GoesToOnePlace(c, code, end, end');
      StopsOneWay(c, end, ending, ending');
    } else if GoesTo(c, code, end') {
      GoesToOnePlace(c, code, end', end);
    }
  }

  /** The description has one answer: whatever trace and end satisfy it are the walk's. */
  lemma TraceIsTheWalk(c: Context, code: seq<CodeRange>, end: Address, ending: Ending)
    requires WalkFunction(c).Walked?
    requires Traced(c, code) && EndsAt(c, code, end, ending)
    ensures var w := WalkFunction(c);
            w.state.code == code && w.end == end && w.ending == ending
  {
    hide Traced, EndsAt, WalkFunction;
    var w := WalkFunction(c);
    WalkIsTraced(c);
    NoLonger(c, code, end, ending, w.state.code);
    NoLonger(c, w.state.code, w.end, w.ending, code);
    SamePrefix(c, code, w.state.code, |code|);
    assert code[..|code|] == code && w.state.code[..|code|] == w.state.code;
    EndsOneWay(c, code, end, ending, w.end, w.ending);
  }
}
