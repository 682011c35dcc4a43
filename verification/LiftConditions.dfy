/**
 Exactly which profiled stack-escape sites a lift accepts, on the decoded instructions:
 chains of addresses, each instruction leading to the next.
 */
module LiftConditions {
  import opened Bytes
  import opened Cpu6502
  import opened Lifter
  import opened LiftRange
  import opened ReturnSites
  import opened RoutineSimulation
  import opened RangeLifter
  import opened RangeLabels

  // ----- straight stretches -----

  predicate IsLoadOrNop(insn: Instruction) {
    insn.mnemonic.LDA? || insn.mnemonic.LDX? || insn.mnemonic.LDY? || insn.mnemonic.NOP?
  }

  predicate IsZeroPageStoreOrNop(insn: Instruction) {
    insn.mnemonic.NOP? || (insn.mode.ZeroPage? && (insn.mnemonic.STA? || insn.mnemonic.STX? || insn.mnemonic.STY?))
  }

  /** An allowed instruction stands at `a` and ends right before `b`. */
  predicate Link(image: Image, allowed: Instruction -> bool, a: Address, b: Address) {
    InsnAt(image, a).Ok? && allowed(InsnAt(image, a).value) && b == a + InsnAt(image, a).value.size
  }

  /** Allowed instructions stand one behind the other from `from` exactly to `to`. */
  ghost predicate Chain(image: Image, allowed: Instruction -> bool, pcs: seq<Address>, from: Address, to: Address) {
    && pcs != [] && pcs[0] == from && pcs[|pcs| - 1] == to
    && forall j {:trigger pcs[j]} :: 0 <= j < |pcs| - 1 ==> Link(image, allowed, pcs[j], pcs[j + 1])
  }

  ghost predicate Leads(image: Image, allowed: Instruction -> bool, from: Address, to: Address) {
    exists pcs :: Chain(image, allowed, pcs, from, to)
  }

  lemma LeadsLater(image: Image, allowed: Instruction -> bool, from: Address, to: Address, pcs: seq<Address>)
    requires Chain(image, allowed, pcs, from, to)
    ensures from <= to
    decreases |pcs|
  {
    if |pcs| > 1 {
      assert Link(image, allowed, pcs[0], pcs[1]);
      LeadsLater(image, allowed, pcs[1], to, pcs[1..]);
    }
  }

  /** A stretch is empty, or one instruction and a stretch behind it. */
  lemma LeadsIff(image: Image, allowed: Instruction -> bool, from: Address, to: Address)
    ensures Leads(image, allowed, from, to) <==>
              || from == to
              || (InsnAt(image, from).Ok? && allowed(InsnAt(image, from).value) && from + InsnAt(image, from).value.size <= to
                  && Leads(image, allowed, from + InsnAt(image, from).value.size, to))
  {
    if from == to {
      assert Chain(image, allowed, [from], from, to);
    }
    if Leads(image, allowed, from, to) && from != to {
      var pcs :| Chain(image, allowed, pcs, from, to);
      assert Link(image, allowed, pcs[0], pcs[1]);
      assert Chain(image, allowed, pcs[1..], pcs[1], to);
      LeadsLater(image, allowed, pcs[1], to, pcs[1..]);
    }
    if InsnAt(image, from).Ok? && allowed(InsnAt(image, from).value) && from + InsnAt(image, from).value.size <= to {
      var next: Address := from + InsnAt(image, from).value.size;
      if Leads(image, allowed, next, to) {
        var pcs :| Chain(image, allowed, pcs, next, to);
        assert Chain(image, allowed, [from] + pcs, from, to);
      }
    }
  }

  ghost predicate PullsAt(image: Image, pc: Address) {
    InsnAt(image, pc).Ok? && InsnAt(image, pc).value.mnemonic.PLA? && InsnAt(image, pc).value.size == 1
  }

  ghost predicate JumpsAt(image: Image, pc: Address, target: Address) {
    && InsnAt(image, pc).Ok? && InsnAt(image, pc).value.mnemonic.JMP? && InsnAt(image, pc).value.mode.Absolute?
    && InsnAt(image, pc).value.operand == Addr(target)
  }

  /** The suffix check accepts exactly a stretch of loads and NOPs up to the profiled jump. */
  lemma {:induction false} SuffixAcceptedIff(image: Image, site: ReturnEscapeSite, pc: Address)
    requires pc <= site.caller
    ensures CheckSuffix(image, site, pc).Accept? <==>
              Leads(image, IsLoadOrNop, pc, site.caller) && JumpsAt(image, site.caller, site.target)
    decreases site.caller - pc
  {
    LeadsIff(image, IsLoadOrNop, pc, site.caller);
    if pc < site.caller && InsnAt(image, pc).Ok? && pc + InsnAt(image, pc).value.size <= site.caller {
      SuffixAcceptedIff(image, site, pc + InsnAt(image, pc).value.size);
    }
  }

  /** The gap check accepts exactly a stretch of zero-page stores and NOPs up to the second pull. */
  lemma {:induction false} GapAcceptedIff(image: Image, site: Address, gap: Address, last: Address)
    requires gap <= last
    ensures CheckGap(image, site, gap, last).Accept? <==> Leads(image, IsZeroPageStoreOrNop, gap, last)
    decreases last - gap
  {
    LeadsIff(image, IsZeroPageStoreOrNop, gap, last);
    if gap < last && InsnAt(image, gap).Ok? && gap + InsnAt(image, gap).value.size <= last {
      GapAcceptedIff(image, site, gap + InsnAt(image, gap).value.size, last);
    }
  }

  // ----- the scan for calls -----

  /** Where the scan of the range goes on from `a`. */
  ghost function Beyond(image: Image, opts: LiftOptions, a: Address): int
    requires FindRegion(opts.dataRegions, a).None? ==> InsnAt(image, a).Ok?
  {
    match FindRegion(opts.dataRegions, a)
    case Some(region) => if region.last == 0xFFFF then 0xFFFF else region.last + 1
    case None =>
      match FindEngine(opts.engines, a)
      case Some(site) => a + 3 + 2 * |site.targets|
      case None => a + InsnAt(image, a).value.size
  }

  /** At `a` is data, or an instruction that does not call into `(after, last]`; the scan goes on at `b`. */
  ghost predicate Passes(image: Image, opts: LiftOptions, after: Address, last: Address, a: Address, b: Address) {
    && (FindRegion(opts.dataRegions, a).None? ==>
          && InsnAt(image, a).Ok?
          && !(InsnAt(image, a).value.mnemonic.JSR?
               && exists t: Address :: InsnAt(image, a).value.operand == Addr(t) && after < t <= last))
    && b == Beyond(image, opts, a)
  }

  ghost predicate ScanPath(image: Image, opts: LiftOptions, after: Address, last: Address, pcs: seq<Address>, from: Address) {
    && pcs != [] && pcs[0] == from && pcs[|pcs| - 1] >= opts.end
    && forall j {:trigger pcs[j]} :: 0 <= j < |pcs| - 1 ==> pcs[j] < opts.end && Passes(image, opts, after, last, pcs[j], pcs[j + 1])
  }

  /** From `from` the scan reaches the end of the range over instructions none of which calls into `(after, last]`. */
  ghost predicate Uncalled(image: Image, opts: LiftOptions, after: Address, last: Address, from: Address) {
    exists pcs :: ScanPath(image, opts, after, last, pcs, from)
  }

  lemma UncalledIff(image: Image, opts: LiftOptions, after: Address, last: Address, from: Address, next: Address)
    requires from < opts.end
    requires FindRegion(opts.dataRegions, from).Some? || InsnAt(image, from).Ok? ==>
               Beyond(image, opts, from) <= 0xFFFF ==> next == Beyond(image, opts, from)
    ensures Uncalled(image, opts, after, last, from) <==>
              Passes(image, opts, after, last, from, next) && Uncalled(image, opts, after, last, next)
  {
    if Uncalled(image, opts, after, last, from) {
      var pcs :| ScanPath(image, opts, after, last, pcs, from);
      assert Passes(image, opts, after, last, pcs[0], pcs[1]);
      assert ScanPath(image, opts, after, last, pcs[1..], next);
    }
    if Passes(image, opts, after, last, from, next) && Uncalled(image, opts, after, last, next) {
      var pcs :| ScanPath(image, opts, after, last, pcs, next);
      assert ScanPath(image, opts, after, last, [from] + pcs, from);
    }
  }

  /** The scan for calls accepts exactly when it gets through the range without meeting one. */
  lemma {:induction false} CallsAcceptedIff(image: Image, opts: LiftOptions, after: Address, last: Address, scan: Address)
    ensures CheckCalls(image, opts, after, last, scan).Accept? <==> Uncalled(image, opts, after, last, scan)
    decreases opts.end - scan
  {
    if scan >= opts.end {
      assert ScanPath(image, opts, after, last, [scan], scan);
    } else if FindRegion(opts.dataRegions, scan).Some? {
      var next := AfterRegion(FindRegion(opts.dataRegions, scan).value);
      UncalledIff(image, opts, after, last, scan, next);
      CallsAcceptedIff(image, opts, after, last, next);
    } else if InsnAt(image, scan).Ok? {
      var next := ScanOn(opts, scan, InsnAt(image, scan).value.size);
      if next.Some? {
        UncalledIff(image, opts, after, last, scan, next.value);
        CallsAcceptedIff(image, opts, after, last, next.value);
      } else {
        UncalledIff(image, opts, after, last, scan, 0);
      }
    } else {
      UncalledIff(image, opts, after, last, scan, 0);
    }
  }

  // ----- the sites -----

  /** No label and no dispatch call lets control in behind `first`, up to `last`. */
  ghost predicate Sealed(opts: LiftOptions, labelled: set<Address>, first: Address, last: Address) {
    forall pc: Address :: first < pc <= last ==>
      && pc !in labelled
      && forall engine :: engine in opts.engines ==>
           LabelFor(pc, opts) !in engine.targets && engine.returnTarget != Some(LabelFor(pc, opts))
  }

  lemma SealedIff(opts: LiftOptions, labelled: set<Address>, first: Address, last: Address)
    ensures Sealed(opts, labelled, first, last) <==> !EntersInside(labelled, first, last) && !DispatchEnters(opts, first, last)
  {
    hide LabelFor;
    if !EntersInside(labelled, first, last) && !DispatchEnters(opts, first, last) {
      forall pc: Address, engine | first < pc <= last && engine in opts.engines
        ensures LabelFor(pc, opts) !in engine.targets && engine.returnTarget != Some(LabelFor(pc, opts))
      {
        assert !engine.Names(LabelFor(pc, opts));
      }
    }
    if DispatchEnters(opts, first, last) {
      var site, pc: Address :| site in opts.engines && first < pc <= last && site.Names(LabelFor(pc, opts));
      assert LabelFor(pc, opts) in site.targets || site.returnTarget == Some(LabelFor(pc, opts));
    }
  }

  /** What a consumed escape must be: elsewhere, or two pulls, loads and NOPs, and the jump, which nothing enters in the middle. */
  ghost predicate EscapeConforms(image: Image, opts: LiftOptions, labelled: set<Address>, site: ReturnEscapeSite) {
    site.alreadyConsumed ==>
      && site.consumeAt.Some?
      && var first := site.consumeAt.value;
         || first >= opts.end || site.caller < opts.start
         || (&& opts.start <= first && first + 2 <= site.caller < opts.end
             && PullsAt(image, first) && PullsAt(image, first + 1)
             && Leads(image, IsLoadOrNop, first + 2, site.caller) && JumpsAt(image, site.caller, site.target)
             && Sealed(opts, labelled, first, site.caller)
             && Uncalled(image, opts, first, site.caller, opts.start))
  }

  /** The validator accepts an escape exactly when it conforms. */
  lemma EscapeAcceptedIff(image: Image, opts: LiftOptions, labelled: set<Address>, site: ReturnEscapeSite)
    ensures CheckEscape(image, opts, labelled, site).Accept? <==> EscapeConforms(image, opts, labelled, site)
  {
    hide CheckSuffix, CheckCalls, Leads, Uncalled, Sealed, EntersInside, DispatchEnters;
    if site.consumeAt.Some? {
      var first := site.consumeAt.value;
      SealedIff(opts, labelled, first, site.caller);
      CallsAcceptedIff(image, opts, first, site.caller, opts.start);
      if first + 2 <= site.caller {
        SuffixAcceptedIff(image, site, first + 2);
      }
    }
  }

  /** What a pull pair must be: elsewhere, or two pulls with zero-page stores and NOPs between them, which nothing enters in the middle. */
  ghost predicate ConsumeConforms(image: Image, opts: LiftOptions, labelled: set<Address>, site: ReturnConsumeSite) {
    && (site.secondPla.Some? || site.at < 0xFFFF)
    && var last: Address := if site.secondPla.Some? then site.secondPla.value else site.at + 1;
       || site.at >= opts.end || last < opts.start
       || (&& opts.start <= site.at < last < opts.end && site.returnAddrs != []
           && PullsAt(image, site.at) && PullsAt(image, last)
           && Leads(image, IsZeroPageStoreOrNop, site.at + 1, last)
           && Sealed(opts, labelled, site.at, last)
           && Uncalled(image, opts, site.at, last, opts.start))
  }

  /** The validator accepts a pull pair exactly when it conforms. */
  lemma ConsumeAcceptedIff(image: Image, opts: LiftOptions, labelled: set<Address>, site: ReturnConsumeSite)
    ensures CheckConsume(image, opts, labelled, site).Accept? <==> ConsumeConforms(image, opts, labelled, site)
  {
    hide CheckGap, CheckCalls, Leads, Uncalled, Sealed, EntersInside, DispatchEnters;
    if SecondPull(site).Some? {
      var last := SecondPull(site).value;
      SealedIff(opts, labelled, site.at, last);
      CallsAcceptedIff(image, opts, site.at, last, opts.start);
      if site.at < last {
        GapAcceptedIff(image, site.at, site.at + 1, last);
      }
    }
  }

  /** A materialized call must be elsewhere, or a JSR to its target that ends inside the range. */
  ghost predicate MaterializedConforms(image: Image, opts: LiftOptions, site: MaterializedCallSite) {
    opts.start <= site.caller < opts.end ==>
      && InsnAt(image, site.caller).Ok? && InsnAt(image, site.caller).value.mnemonic.JSR?
      && InsnAt(image, site.caller).value.operand == Addr(site.target)
      && site.caller + 3 <= opts.end
  }

  /** The validator accepts a materialized call exactly when it conforms. */
  lemma MaterializedAcceptedIff(image: Image, opts: LiftOptions, site: MaterializedCallSite)
    ensures CheckMaterialized(image, opts, site).Accept? <==> MaterializedConforms(image, opts, site)
  {
  }

  lemma {:induction false} MaterializedCallsAcceptedIff(image: Image, opts: LiftOptions, sites: seq<MaterializedCallSite>)
    ensures CheckAllMaterialized(image, opts, sites).Accept? <==> forall site :: site in sites ==> MaterializedConforms(image, opts, site)
  {
    hide CheckMaterialized, MaterializedConforms;
    if sites != [] {
      MaterializedAcceptedIff(image, opts, sites[0]);
      MaterializedCallsAcceptedIff(image, opts, sites[1..]);
      assert forall site :: site in sites <==> site == sites[0] || site in sites[1..];
    }
  }

  lemma {:induction false} ConsumesAcceptedIff(image: Image, opts: LiftOptions, labelled: set<Address>, sites: seq<ReturnConsumeSite>)
    ensures CheckAllConsumes(image, opts, labelled, sites).Accept?
            <==> forall site :: site in sites ==> ConsumeConforms(image, opts, labelled, site)
  {
    hide CheckConsume, ConsumeConforms;
    if sites != [] {
      ConsumeAcceptedIff(image, opts, labelled, sites[0]);
      ConsumesAcceptedIff(image, opts, labelled, sites[1..]);
      assert forall site :: site in sites <==> site == sites[0] || site in sites[1..];
    }
  }

  lemma {:induction false} EscapesAcceptedIff(image: Image, opts: LiftOptions, labelled: set<Address>, sites: seq<ReturnEscapeSite>)
    ensures CheckAllEscapes(image, opts, labelled, sites).Accept?
            <==> forall site :: site in sites ==> EscapeConforms(image, opts, labelled, site)
  {
    hide CheckEscape, EscapeConforms;
    if sites != [] {
      EscapeAcceptedIff(image, opts, labelled, sites[0]);
      EscapesAcceptedIff(image, opts, labelled, sites[1..]);
      assert forall site :: site in sites <==> site == sites[0] || site in sites[1..];
    }
  }

  ghost predicate SitesConform(image: Image, opts: LiftOptions, labelled: set<Address>) {
    && (forall site :: site in opts.materializedCalls ==> MaterializedConforms(image, opts, site))
    && (forall site :: site in opts.returnConsumes ==> ConsumeConforms(image, opts, labelled, site))
    && (forall site :: site in opts.returnEscapes ==> EscapeConforms(image, opts, labelled, site))
  }

  /** The validation of a range accepts exactly when every profiled site conforms. */
  lemma SitesAcceptedIff(image: Image, opts: LiftOptions, labelled: set<Address>)
    ensures CheckSites(image, opts, labelled).Accept? <==> SitesConform(image, opts, labelled)
  {
    hide MaterializedConforms, ConsumeConforms, EscapeConforms, CheckAllMaterialized, CheckAllConsumes, CheckAllEscapes;
    MaterializedCallsAcceptedIff(image, opts, opts.materializedCalls);
    ConsumesAcceptedIff(image, opts, labelled, opts.returnConsumes);
    EscapesAcceptedIff(image, opts, labelled, opts.returnEscapes);
  }

  // ----- when a range lifts -----

  ghost predicate Decodes(image: Image, at: Address) {
    InsnAt(image, at).Ok? && at + InsnAt(image, at).value.size < 0x1_0000
  }

  /** The first pass succeeds exactly when every address it comes to decodes, short of the end of memory. */
  lemma {:induction false} SweepSucceedsIff(image: Image, opts: LiftOptions, pc: Address)
    ensures CollectTargets(image, opts, pc).Ok? <==> forall at: Address :: Swept(image, opts, pc, at) ==> Decodes(image, at)
    decreases opts.end - pc
  {
    if pc < opts.end {
      match FindRegion(opts.dataRegions, pc)
      case Some(region) =>
        SweepSucceedsIff(image, opts, AfterRegion(region));
        forall at: Address
          ensures Swept(image, opts, pc, at) <==> Swept(image, opts, AfterRegion(region), at)
        {
        }
      case None =>
        assert Swept(image, opts, pc, pc);
        if Decodes(image, pc) {
          var next := SweepOn(opts, InsnAt(image, pc).value);
          if next.Some? {
            SweepSucceedsIff(image, opts, next.value);
            forall at: Address
              ensures Swept(image, opts, pc, at) <==> at == pc || Swept(image, opts, next.value, at)
            {
            }
          } else {
            forall at: Address
              ensures Swept(image, opts, pc, at) <==> at == pc
            {
            }
          }
        }
    }
  }

  /** The addresses the second pass comes to. */
  predicate Reached(image: Image, opts: LiftOptions, targets: set<Address>, pc: Address, at: Address)
    decreases opts.end - pc
  {
    && pc < opts.end
    && (|| pc == at
        || (var visit := VisitAt(image, opts, targets, pc);
            visit.Visits? && visit.next.Some? && Reached(image, opts, targets, visit.next.value, at)))
  }

  /** The second pass succeeds exactly when every address it comes to is data or decodes; its items are those addresses. */
  lemma {:induction false} WalkSucceedsIff(image: Image, opts: LiftOptions, targets: set<Address>, pc: Address)
    ensures var walked := Walk(image, opts, targets, pc);
            && (walked.Ok? <==> forall at: Address :: Reached(image, opts, targets, pc, at) ==> InData(opts, at) || Decodes(image, at))
            && (walked.Ok? ==> forall at: Address :: Emits(walked.value, at) <==> Reached(image, opts, targets, pc, at) && !InData(opts, at))
    decreases opts.end - pc
  {
    var walked := Walk(image, opts, targets, pc);
    if pc < opts.end {
      assert Reached(image, opts, targets, pc, pc);
      DataIsFound(opts, pc);
      var visit := VisitAt(image, opts, targets, pc);
      if visit.Visits? {
        if visit.next.Some? {
          WalkSucceedsIff(image, opts, targets, visit.next.value);
          assert forall at: Address :: Reached(image, opts, targets, pc, at) <==> at == pc || Reached(image, opts, targets, visit.next.value, at);
          var rest := Walk(image, opts, targets, visit.next.value);
          if rest.Ok? {
            EmitsMore(visit.item, rest.value);
          }
        } else {
          assert forall at: Address :: Reached(image, opts, targets, pc, at) <==> at == pc;
          EmitsMore(visit.item, []);
          assert [visit.item] + [] == [visit.item];
        }
      }
    }
  }

  lemma DataIsFound(opts: LiftOptions, a: Address)
    ensures InData(opts, a) <==> FindRegion(opts.dataRegions, a).Some?
  {
    if FindRegion(opts.dataRegions, a).Some? {
      assert FindRegion(opts.dataRegions, a).value.Contains(a);
    } else {
      assert forall d :: d in opts.dataRegions ==> !d.Contains(a);
    }
  }

  lemma EmitsMore(item: Item, rest: seq<Item>)
    ensures forall at: Address :: Emits([item] + rest, at) <==> (item.Code? && item.Pc() == at) || Emits(rest, at)
  {
    forall at: Address
      ensures Emits([item] + rest, at) <==> (item.Code? && item.Pc() == at) || Emits(rest, at)
    {
      if item.Code? && item.Pc() == at {
        assert ([item] + rest)[0] == item;
      }
      if Emits(rest, at) {
        var k :| 0 <= k < |rest| && rest[k].Code? && rest[k].Pc() == at;
        assert ([item] + rest)[k + 1] == rest[k];
      }
    }
  }

  /** A consumed escape whose first pull is in the range. */
  predicate StartsInside(opts: LiftOptions, site: ReturnEscapeSite) {
    site.alreadyConsumed && site.consumeAt.Some? && opts.start <= site.consumeAt.value < opts.end
  }

  lemma {:induction false} EmittedIff(opts: LiftOptions, items: seq<Item>, sites: seq<ReturnEscapeSite>)
    ensures CheckEmitted(opts, items, sites).Accept?
            <==> forall site :: site in sites && StartsInside(opts, site) ==> Emits(items, site.consumeAt.value) && Emits(items, site.caller)
  {
    if sites != [] {
      EmittedIff(opts, items, sites[1..]);
      assert forall site :: site in sites <==> site == sites[0] || site in sites[1..];
    }
  }

  /** The second pass comes to an instruction at `a`. */
  ghost predicate Comes(image: Image, opts: LiftOptions, targets: set<Address>, a: Address) {
    Reached(image, opts, targets, opts.start, a) && !InData(opts, a)
  }

  /**
   Exactly when a range lifts: it is not empty, whatever the two passes come to is data or decodes
   short of the end of memory, every profiled site conforms, and the second pass comes to both
   ends of every consumed escape that starts in the range.
   */
  lemma LiftsIff(image: Image, opts: LiftOptions, targets: set<Address>, labelled: set<Address>)
    requires CollectTargets(image, opts, opts.start).Ok? ==> forall a: Address :: a in targets <==> Pending(image, opts, a)
    requires forall a: Address :: a in labelled <==> Labelable(opts, a) && (a in opts.extraLabels || NamedBySweep(image, opts, a))
    ensures Plan(image, opts).Ok? <==>
              && opts.start < opts.end
              && (forall at: Address :: Swept(image, opts, opts.start, at) ==> Decodes(image, at))
              && SitesConform(image, opts, labelled)
              && (forall at: Address :: Reached(image, opts, targets, opts.start, at) ==> InData(opts, at) || Decodes(image, at))
              && (forall site :: site in opts.returnEscapes && StartsInside(opts, site) ==>
                    Comes(image, opts, targets, site.consumeAt.value) && Comes(image, opts, targets, site.caller))
  {
    hide CollectTargets, Walk, CheckSites, SitesConform, CheckEmitted, Reached, Swept, Decodes, Emits, InData, Labelable, NamedBySweep;
    SweepSucceedsIff(image, opts, opts.start);
    var collected := CollectTargets(image, opts, opts.start);
    if collected.Ok? {
      forall a: Address
        ensures a in collected.value <==> a in targets
        ensures a in collected.value + ExtraTargets(opts) <==> a in labelled
      {
        CollectedExactly(image, opts, a);
        LabelableIs(opts, a);
      }
      assert collected.value == targets && collected.value + ExtraTargets(opts) == labelled;
      SitesAcceptedIff(image, opts, labelled);
      WalkSucceedsIff(image, opts, targets, opts.start);
      var walked := Walk(image, opts, targets, opts.start);
      if walked.Ok? {
        EmittedIff(opts, walked.value, opts.returnEscapes);
      }
    }
  }
}
