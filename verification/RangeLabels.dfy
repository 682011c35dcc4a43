/**
 The labels a lifted range defines, read off its operations: a label stands before
 the instruction of every extra address of the profile and of every address named by
 a swept branch or jump, and nowhere else.
 */
module RangeLabels {
  import opened Bytes
  import opened Cpu6502
  import opened Isa
  import opened Ir
  import opened Lifter
  import opened LiftRange
  import opened RoutineSimulation
  import opened RangeLifter
  import opened Concatenation

  /** The operations hold the marker of an instruction at `a`. */
  ghost predicate EmittedAt(ops: seq<Op>, a: Address) {
    exists j :: MarkedAt(ops, j, a)
  }

  predicate MarkedAt(ops: seq<Op>, j: int, a: Address) {
    0 <= j < |ops| && ops[j].Source? && ops[j].pc == a
  }

  /** A place of the range that holds neither profiled data nor a dispatch table. */
  ghost predicate Labelable(opts: LiftOptions, a: Address) {
    && opts.start <= a < opts.end
    && (forall d :: d in opts.dataRegions ==> !(d.first <= a <= d.last))
    && (forall site :: site in opts.engines ==> !(site.caller + 3 <= a < site.caller + 3 + 2 * |site.targets|))
  }

  /** A branch or absolute jump to `a`. */
  predicate NamesTarget(insn: Instruction, a: Address) {
    && (insn.IsBranch() || (insn.mnemonic.JMP? && insn.mode.Absolute?))
    && insn.BranchTarget() == Some(a)
  }

  /** The first pass decodes a branch or jump to `a`. */
  ghost predicate NamedBySweep(image: Image, opts: LiftOptions, a: Address) {
    exists at: Address :: Swept(image, opts, opts.start, at) && InsnAt(image, at).Ok? && NamesTarget(InsnAt(image, at).value, a)
  }

  lemma LabelableIs(opts: LiftOptions, a: Address)
    ensures Labelable(opts, a) <==> InRange(opts, a) && !DataByte(opts, a) && !InTable(opts, a)
  {
    if FindRegion(opts.dataRegions, a).Some? {
      assert FindRegion(opts.dataRegions, a).value.Contains(a);
    } else {
      assert forall d :: d in opts.dataRegions ==> !d.Contains(a);
    }
    assert forall site :: site in opts.engines ==>
        (site.ContainsTableByte(a) <==> site.caller + 3 <= a < site.caller + 3 + 2 * |site.targets|);
  }

  /** A place a swept branch or jump names that a label can stand at. */
  ghost predicate Pending(image: Image, opts: LiftOptions, a: Address) {
    Labelable(opts, a) && NamedBySweep(image, opts, a)
  }

  /** The first pass collects exactly the pending targets. */
  lemma CollectedExactly(image: Image, opts: LiftOptions, a: Address)
    requires CollectTargets(image, opts, opts.start).Ok?
    ensures a in CollectTargets(image, opts, opts.start).value <==> Pending(image, opts, a)
  {
    LabelableIs(opts, a);
    if a in CollectTargets(image, opts, opts.start).value {
      var at := CollectedTargets(image, opts, opts.start, a);
    }
    if Pending(image, opts, a) {
      var at: Address :| Swept(image, opts, opts.start, at) && InsnAt(image, at).Ok? && NamesTarget(InsnAt(image, at).value, a);
      SweptTargetsAreCollected(image, opts, opts.start, at, a);
    }
  }

  /** Exactly the labelable addresses the profile lists or a swept instruction names are labelled. */
  lemma LabelledExactly(image: Image, opts: LiftOptions, a: Address)
    requires Plan(image, opts).Ok?
    ensures a in Plan(image, opts).value.labelled <==>
              Labelable(opts, a) && (a in opts.extraLabels || NamedBySweep(image, opts, a))
  {
    LabelableIs(opts, a);
    CollectedExactly(image, opts, a);
  }

  /** Every instruction marker is an emitted item's, behind that item's label. */
  lemma MarkerPosition(l: Lifted, j: nat) returns (k: nat)
    requires ValidItems(l.items) && j < |l.Ops()| && l.Ops()[j].Source?
    ensures k < |l.items| && l.items[k].Code? && l.Ops()[j].pc == l.items[k].Pc()
  {
    var d;
    k, d := Locate(ItemBlocks(l), j - 1);
    assert l.Ops()[j] == ItemBlocks(l)[k][d];
    BlockMarkers(l.opts, l.labelled, l.items[k], d);
  }

  lemma BlockMarkers(opts: LiftOptions, labelled: set<Address>, item: Item, d: nat)
    requires item.Code? ==> item.insn.Valid()
    requires d < |ItemOps(opts, labelled, item)| && ItemOps(opts, labelled, item)[d].Source?
    ensures item.Code? && ItemOps(opts, labelled, item)[d].pc == item.Pc()
  {
    if item.Code? {
      var insn := item.insn;
      var a, b, c, e := LabelOps(opts, labelled, insn.pc), [Source(insn.pc, insn.size)], SiteOps(opts, insn.pc), LiftInsn(insn, opts);
      Part(a, b, c, e, d);
    }
  }

  /** A labelled item starts with its label and its marker. */
  lemma LabelThenMarker(l: Lifted, k: nat)
    requires ValidItems(l.items) && k < |l.items| && Carries(l, k)
    ensures var i := Position(l, k);
            && i + 1 < |l.Ops()| && l.Ops()[i] == Label(LabelFor(l.items[k].Pc(), l.opts))
            && MarkedAt(l.Ops(), i + 1, l.items[k].Pc())
  {
    hide LiftInsn, SiteOps;
    ItemBlock(l, k);
    BlockParts(l, k);
    var block := ItemBlocks(l)[k];
    assert block[0] == Label(LabelFor(l.items[k].Pc(), l.opts));
    assert l.Ops()[Position(l, k)] == l.Ops()[Position(l, k)..Position(l, k) + |block|][0];
    assert l.Ops()[Position(l, k) + 1] == l.Ops()[Position(l, k)..Position(l, k) + |block|][1];
  }

  /** The label of `a` is defined, right before the instruction at `a`, and a jump to it arrives there. */
  ghost predicate DefinedBefore(opts: LiftOptions, ops: seq<Op>, a: Address) {
    var at := FindLabel(ops, LabelFor(a, opts));
    && at.Some?
    && (forall m: Machine :: Goto(ops, LabelFor(a, opts), m) == At(at.value, m))
    && if LabelFor(a, opts) == opts.entryName then at.value == 0 else MarkedAt(ops, at.value + 1, a)
  }

  /** A labelled, emitted address has its label defined before its instruction. */
  lemma LabelledIsDefined(l: Lifted, a: Address)
    requires ValidItems(l.items) && Increasing(l.items)
    requires a in l.labelled && EmittedAt(l.Ops(), a)
    ensures DefinedBefore(l.opts, l.Ops(), a)
  {
    hide Increasing, LabelFor, ItemBlocks, Position, Flatten;
    var ops, name := l.Ops(), LabelFor(a, l.opts);
    if name == l.opts.entryName {
      assert ops[0] == Label(name);
    } else {
      var j :| MarkedAt(ops, j, a);
      var k := MarkerPosition(l, j);
      LabelThenMarker(l, k);
      var i := FindLabel(ops, name).value;
      var k' := LabelPosition(l, i, name);
      LabelForInjective(a, l.items[k'].Pc(), l.opts);
      PcsAreDistinct(l.items, k, k');
    }
  }

  /**
   What a lifted range's labels are for: the label of every labelable address that the profile
   lists or a swept branch or jump names, and that is emitted, stands right before its
   instruction, and every jump to it arrives there.
   */
  lemma NamedLabelsAreDefined(image: Image, opts: LiftOptions, a: Address)
    requires image.Valid() && Plan(image, opts).Ok?
    requires Labelable(opts, a) && (a in opts.extraLabels || NamedBySweep(image, opts, a))
    ensures ValidItems(Plan(image, opts).value.items)
    ensures EmittedAt(Plan(image, opts).value.Ops(), a) ==> DefinedBefore(opts, Plan(image, opts).value.Ops(), a)
  {
    var l := Plan(image, opts).value;
    WalkShape(image, opts, CollectTargets(image, opts, opts.start).value, opts.start);
    LabelledExactly(image, opts, a);
    if EmittedAt(l.Ops(), a) {
      LabelledIsDefined(l, a);
    }
  }

  /**
   Conversely every label behind the entry's belongs to the instruction that follows it, an
   address the profile lists or a swept branch or jump names.
   */
  lemma LabelsAreAccounted(image: Image, opts: LiftOptions, i: nat) returns (a: Address)
    requires image.Valid() && Plan(image, opts).Ok?
    requires ValidItems(Plan(image, opts).value.items)
    requires 0 < i < |Plan(image, opts).value.Ops()| && Plan(image, opts).value.Ops()[i].Label?
    ensures var ops := Plan(image, opts).value.Ops();
            ops[i] == Label(LabelFor(a, opts)) && MarkedAt(ops, i + 1, a)
    ensures Labelable(opts, a) && (a in opts.extraLabels || NamedBySweep(image, opts, a))
  {
    var l := Plan(image, opts).value;
    var k := LabelPosition(l, i, l.Ops()[i].name);
    a := l.items[k].Pc();
    LabelThenMarker(l, k);
    LabelledExactly(image, opts, a);
  }

  // ----- the pointers listed -----

  /** Some operation jumps through the pointer. */
  ghost predicate JumpsThrough(ops: seq<Op>, pointer: Address) {
    exists i :: 0 <= i < |ops| && ops[i] == JmpIndirect(pointer)
  }

  lemma LiftedPointer(opts: LiftOptions, insn: Instruction, labelled: set<Address>, pointer: Address)
    requires insn.Valid()
    ensures pointer in NamesOf(opts, labelled, Code(insn)).pointers <==> JumpsThrough(LiftInsn(insn, opts), pointer)
  {
    if pointer in NamesOf(opts, labelled, Code(insn)).pointers {
      assert LiftInsn(insn, opts)[0] == JmpIndirect(pointer);
    }
  }

  lemma ItemPointer(opts: LiftOptions, labelled: set<Address>, item: Item, pointer: Address)
    requires item.Code? ==> item.insn.Valid()
    ensures pointer in NamesOf(opts, labelled, item).pointers <==> JumpsThrough(ItemOps(opts, labelled, item), pointer)
  {
    hide LiftInsn, NamesOf;
    if item.Code? {
      var insn := item.insn;
      LiftedPointer(opts, insn, labelled, pointer);
      var a, b, c, e := LabelOps(opts, labelled, insn.pc), [Source(insn.pc, insn.size)], SiteOps(opts, insn.pc), LiftInsn(insn, opts);
      forall d | 0 <= d < |a + b + c + e|
        ensures (a + b + c + e)[d] == JmpIndirect(pointer) ==> d >= |a| + |b| + |c| && e[d - |a| - |b| - |c|] == JmpIndirect(pointer)
      {
        Part(a, b, c, e, d);
      }
      forall d | 0 <= d < |e|
        ensures (a + b + c + e)[|a| + |b| + |c| + d] == e[d]
      {
      }
    } else {
      HoleHasNoPointer(opts, labelled, item.at);
    }
  }

  lemma HoleHasNoPointer(opts: LiftOptions, labelled: set<Address>, at: Address)
    ensures NamesOf(opts, labelled, Hole(at)).pointers == {}
  {
  }

  lemma {:induction false} JumpsThroughAppend(a: seq<Op>, b: seq<Op>, pointer: Address)
    ensures JumpsThrough(a + b, pointer) <==> JumpsThrough(a, pointer) || JumpsThrough(b, pointer)
  {
    if JumpsThrough(a, pointer) {
      var i :| 0 <= i < |a| && a[i] == JmpIndirect(pointer);
      assert (a + b)[i] == a[i];
    }
    if JumpsThrough(b, pointer) {
      var i :| 0 <= i < |b| && b[i] == JmpIndirect(pointer);
      assert (a + b)[|a| + i] == b[i];
    }
  }

  /** A routine lists exactly the pointers its operations jump through. */
  lemma {:induction false} PointersAreExact(opts: LiftOptions, labelled: set<Address>, items: seq<Item>, pointer: Address)
    requires ValidItems(items)
    ensures pointer in AllNames(opts, labelled, items).pointers
            <==> JumpsThrough([Label(opts.entryName)] + Flatten(opts, labelled, items), pointer)
    decreases |items|
  {
    hide ItemOps, NamesOf;
    if items != [] {
      var front, last := items[..|items| - 1], items[|items| - 1];
      PointersAreExact(opts, labelled, front, pointer);
      assert items == front + [last];
      FlattenOne(opts, labelled, front, last);
      ItemPointer(opts, labelled, last, pointer);
      var entry: seq<Op> := [Label(opts.entryName)];
      assert entry + Flatten(opts, labelled, items) == (entry + Flatten(opts, labelled, front)) + ItemOps(opts, labelled, last);
      JumpsThroughAppend(entry + Flatten(opts, labelled, front), ItemOps(opts, labelled, last), pointer);
    }
  }

  // ----- what the two passes visit -----

  /** The call at `at` dispatches through the table that holds `a`. */
  ghost predicate TableOf(image: Image, opts: LiftOptions, at: Address, a: Address) {
    && InsnAt(image, at).Ok? && InsnAt(image, at).value.mnemonic.JSR? && InsnAt(image, at).value.mode.Absolute?
    && match FindEngine(opts.engines, at)
       case Some(site) => at + 3 <= a < at + 3 + 2 * |site.targets|
       case None => false
  }

  ghost predicate InData(opts: LiftOptions, a: Address) {
    exists d :: d in opts.dataRegions && d.first <= a <= d.last
  }

  /**
   The first pass leaves nothing out: every address of the range is profiled data, a byte of a
   swept instruction, or a byte of a swept dispatch call's table.
   */
  lemma {:induction false} SweepCovers(image: Image, opts: LiftOptions, pc: Address, a: Address) returns (at: Address)
    requires image.Valid() && CollectTargets(image, opts, pc).Ok? && pc <= a < opts.end
    ensures || InData(opts, a)
            || (Swept(image, opts, pc, at) && InsnAt(image, at).Ok?
                && (at <= a < at + InsnAt(image, at).value.size || TableOf(image, opts, at, a)))
    decreases opts.end - pc
  {
    at := pc;
    match FindRegion(opts.dataRegions, pc)
    case Some(region) =>
      if a <= region.last {
        assert region in opts.dataRegions && region.first <= a <= region.last;
      } else {
        at := SweepCovers(image, opts, AfterRegion(region), a);
      }
    case None =>
      var insn := InsnAt(image, pc).value;
      DecodedInsn(image, pc);
      var next := SweepOn(opts, insn);
      if a < pc + insn.size || (next.Some? && a < next.value) || next.None? {
        assert insn.mode.Absolute? ==> insn.size == 3;
      } else {
        at := SweepCovers(image, opts, next.value, a);
      }
  }

  lemma {:induction false} SweptIsAhead(image: Image, opts: LiftOptions, pc: Address, at: Address)
    requires Swept(image, opts, pc, at)
    ensures pc <= at < opts.end && FindRegion(opts.dataRegions, at).None?
    decreases opts.end - pc
  {
    match FindRegion(opts.dataRegions, pc)
    case Some(region) => SweptIsAhead(image, opts, AfterRegion(region), at);
    case None =>
      if pc != at {
        SweptIsAhead(image, opts, SweepOn(opts, InsnAt(image, pc).value).value, at);
      }
  }

  /** Nor does it decode anything twice: what is swept later starts behind an earlier instruction and its table, in no data. */
  lemma {:induction false} SweptAreApart(image: Image, opts: LiftOptions, pc: Address, x: Address, y: Address)
    requires image.Valid() && Swept(image, opts, pc, x) && Swept(image, opts, pc, y) && x < y
    ensures InsnAt(image, x).Ok? && x + InsnAt(image, x).value.size <= y
    ensures !TableOf(image, opts, x, y) && !InData(opts, y)
    decreases opts.end - pc
  {
    match FindRegion(opts.dataRegions, pc)
    case Some(region) => SweptAreApart(image, opts, AfterRegion(region), x, y);
    case None =>
      SweptIsAhead(image, opts, pc, x);
      SweptIsAhead(image, opts, pc, y);
      var next := SweepOn(opts, InsnAt(image, pc).value).value;
      SweptIsAhead(image, opts, next, y);
      if x == pc {
        assert forall d :: d in opts.dataRegions ==> !d.Contains(y);
      } else {
        SweptAreApart(image, opts, next, x, y);
      }
  }

  /** The second pass goes from one item to the next one visited. */
  lemma {:induction false} WalkGoesOn(image: Image, opts: LiftOptions, targets: set<Address>, pc: Address, k: nat)
    requires Walk(image, opts, targets, pc).Ok? && k < |Walk(image, opts, targets, pc).value|
    ensures var items := Walk(image, opts, targets, pc).value;
            && items[k].Pc() < opts.end && VisitAt(image, opts, targets, items[k].Pc()).Visits?
            && var visit := VisitAt(image, opts, targets, items[k].Pc());
               && items[k] == visit.item
               && if k + 1 < |items| then visit.next == Some(items[k + 1].Pc())
                  else visit.next.None? || visit.next.value >= opts.end
    decreases opts.end - pc
  {
    hide InsnAt, FindRegion, LiftRange.WalkOn;
    var visit := VisitAt(image, opts, targets, pc);
    if visit.next.Some? {
      var rest := Walk(image, opts, targets, visit.next.value);
      assert Walk(image, opts, targets, pc).value == [visit.item] + rest.value;
      if k > 0 {
        WalkGoesOn(image, opts, targets, visit.next.value, k - 1);
      } else if rest.value != [] {
        WalkStartsAt(image, opts, targets, visit.next.value);
      }
    }
  }

  /** An instruction behind which the second pass does not simply continue: a jump, return or trap, or a dispatch call. */
  ghost predicate Ends(opts: LiftOptions, insn: Instruction) {
    || insn.mnemonic.JMP? || insn.mnemonic.RTS? || insn.mnemonic.RTI? || insn.mnemonic.BRK? || insn.mnemonic.JAM?
    || (insn.mnemonic.JSR? && insn.mode.Absolute? && FindEngine(opts.engines, insn.pc).Some?)
  }

  /** Behind an ending instruction, its table, or a data region (`end.saturating_add(1)`). */
  ghost function Behind(opts: LiftOptions, item: Item): int {
    match item
    case Hole(at) =>
      (match FindRegion(opts.dataRegions, at)
       case Some(region) => if region.last == 0xFFFF then 0xFFFF else region.last + 1
       case None => at)
    case Code(insn) =>
      (match FindEngine(opts.engines, insn.pc)
       case Some(site) => if insn.mnemonic.JSR? && insn.mode.Absolute? then insn.pc + 3 + 2 * |site.targets| else insn.pc + insn.size
       case None => insn.pc + insn.size)
  }

  /**
   Where the second pass resumes behind an ending instruction or a data hole: at the lowest pending
   target behind it, and only there; it stops when there is none.
   */
  lemma WalkResumesAtLowest(image: Image, opts: LiftOptions, k: nat)
    requires image.Valid() && Plan(image, opts).Ok? && k < |Plan(image, opts).value.items|
    requires var item := Plan(image, opts).value.items[k]; item.Hole? || Ends(opts, item.insn)
    ensures var items := Plan(image, opts).value.items;
            var behind := Behind(opts, items[k]);
            if k + 1 < |items| then
              && behind <= items[k + 1].Pc() && Pending(image, opts, items[k + 1].Pc())
              && forall a: Address :: Pending(image, opts, a) && behind <= a ==> items[k + 1].Pc() <= a
            else
              forall a: Address :: Pending(image, opts, a) ==> a < behind
  {
    hide Walk, CollectTargets, CheckSites, CheckEmitted, Swept, FallsThrough, Decoded, NamedBySweep;
    var items := Plan(image, opts).value.items;
    var collected := CollectTargets(image, opts, opts.start).value;
    forall a: Address
      ensures a in collected <==> Pending(image, opts, a)
    {
      CollectedExactly(image, opts, a);
    }
    assert CodeTargets(opts, collected) == collected by {
      forall a | a in collected ensures a in CodeTargets(opts, collected) { LabelableIs(opts, a); }
    }
    WalkGoesOn(image, opts, collected, opts.start, k);
    WalkShape(image, opts, collected, opts.start);
  }
}
