/**
 Re-running discovery until every branch label is owned by a trimmed function range.
 Profile functions are the addresses the loop adds to; names and notes are not modelled.
 */
module Continuations {
  import opened Bytes
  import opened Cpu6502
  import opened AscendingOrder
  import opened FunctionWalk
  import opened Discovery

  /** The profile and image, apart from the profile's function list. */
  datatype Base = Base(
    table: Table, prg: seq<Byte>, window: Window, facts: BankFacts, declared: seq<CodeRange>,
    vectors: seq<Address>, tableTargets: seq<Address>, dynamicBus: bool)
  {
    function With(functions: seq<Address>): Inputs {
      Inputs(table, prg, window, facts, declared,
             seq(|vectors|, i requires 0 <= i < |vectors| => (vectors[i], Vector))
             + seq(|functions|, i requires 0 <= i < |functions| => (functions[i], ProfileRoot))
             + seq(|tableTargets|, i requires 0 <= i < |tableTargets| => (tableTargets[i], JumpTableTarget)))
    }

    /** The labels of a function that need an owner. */
    function Wanted(f: DiscoveredFunction): set<Address> {
      f.labels + if dynamicBus then f.externals else {}
    }
  }

  datatype Span = Span(addr: Address, end: Address) {
    predicate Owns(a: Address) {
      addr <= a < end
    }
  }

  function Min(a: Address, b: Address): Address {
    if a < b then a else b
  }

  /** The initial roots: the vectors, the listed functions and the table targets, each with its kind. */
  lemma GivenRoots(base: Base, listed: seq<Address>, a: Address, kind: RootKind)
    ensures (a, kind) in base.With(listed).initial <==>
              || (kind.Vector? && a in base.vectors)
              || (kind.ProfileRoot? && a in listed)
              || (kind.JumpTableTarget? && a in base.tableTargets)
  {
    var v, f, t := |base.vectors|, |listed|, |base.tableTargets|;
    var initial := base.With(listed).initial;
    assert forall i :: 0 <= i < v ==> initial[i] == (base.vectors[i], Vector);
    assert forall i :: 0 <= i < f ==> initial[v + i] == (listed[i], ProfileRoot);
    assert forall i :: 0 <= i < t ==> initial[v + f + i] == (base.tableTargets[i], JumpTableTarget);
  }

  ghost predicate Sorted(spans: seq<Span>) {
    forall i, j :: 0 <= i < j < |spans| ==> spans[i].addr < spans[j].addr
  }

  /** Span `i` stops where the next one starts. */
  predicate TrimmedAt(spans: seq<Span>, trimmed: seq<Span>, i: nat)
    requires i < |spans| == |trimmed|
  {
    && trimmed[i].addr == spans[i].addr
    && trimmed[i].end == if i + 1 < |spans| then Min(spans[i].end, spans[i + 1].addr) else spans[i].end
  }

  ghost predicate Trimmed(spans: seq<Span>, trimmed: seq<Span>) {
    |spans| == |trimmed| && forall i :: 0 <= i < |spans| ==> TrimmedAt(spans, trimmed, i)
  }

  ghost predicate SpansOf(functions: map<Address, DiscoveredFunction>, spans: seq<Span>) {
    && (forall i :: 0 <= i < |spans| ==> spans[i].addr in functions && spans[i].end == functions[spans[i].addr].end)
    && (forall a :: a in functions ==> exists i :: 0 <= i < |spans| && spans[i].addr == a)
  }

  method SpansInOrder(functions: map<Address, DiscoveredFunction>) returns (spans: seq<Span>)
    requires forall a :: a in functions ==> functions[a].addr == a
    ensures Sorted(spans) && SpansOf(functions, spans)
  {
    var addresses := Ascending(functions.Keys, 0);
    AscendingLists(functions.Keys);
    assert forall i :: 0 <= i < |addresses| ==> addresses[i] in addresses;
    spans := seq(|addresses|, i requires 0 <= i < |addresses| => Span(functions[addresses[i]].addr, functions[addresses[i]].end));
    forall a | a in functions
      ensures exists i :: 0 <= i < |spans| && spans[i].addr == a
    {
      assert a in addresses;
      var i :| 0 <= i < |addresses| && addresses[i] == a;
      assert spans[i].addr == a;
    }
  }

  /** Cuts off overlaps at the next entry. */
  method Trim(spans: seq<Span>) returns (trimmed: seq<Span>)
    ensures Trimmed(spans, trimmed)
  {
    trimmed := spans;
    var i := 0;
    while i + 1 < |spans|
      invariant 0 <= i <= |spans| == |trimmed| && (|spans| > 0 ==> i < |spans|)
      invariant forall k :: 0 <= k < i ==> TrimmedAt(spans, trimmed, k)
      invariant forall k :: i <= k < |trimmed| ==> trimmed[k] == spans[k]
    {
      var next := trimmed[i + 1].addr;
      ghost var before := trimmed;
      if trimmed[i].end > next {
        trimmed := trimmed[i := trimmed[i].(end := next)];
      }
      forall k | 0 <= k < i
        ensures TrimmedAt(spans, trimmed, k)
      {
        assert TrimmedAt(spans, before, k);
      }
      i := i + 1;
    }
  }

  predicate Owned(trimmed: seq<Span>, a: Address) {
    exists i :: 0 <= i < |trimmed| && trimmed[i].Owns(a)
  }

  /** Trimmed ranges never overlap. */
  lemma OneOwner(spans: seq<Span>, trimmed: seq<Span>, i: nat, j: nat, a: Address)
    requires Sorted(spans) && Trimmed(spans, trimmed) && i < |trimmed| && j < |trimmed|
    requires trimmed[i].Owns(a) && trimmed[j].Owns(a)
    ensures i == j
  {
    assert TrimmedAt(spans, trimmed, i) && TrimmedAt(spans, trimmed, j);
  }

  /** A function with any range of its own owns its entry. */
  lemma EntryIsOwned(spans: seq<Span>, trimmed: seq<Span>, i: nat)
    requires Sorted(spans) && Trimmed(spans, trimmed) && i < |spans| && spans[i].addr < spans[i].end
    ensures Owned(trimmed, spans[i].addr)
  {
    assert TrimmedAt(spans, trimmed, i);
    assert trimmed[i].Owns(spans[i].addr);
  }

  method IsOwned(trimmed: seq<Span>, a: Address) returns (owned: bool)
    ensures owned == Owned(trimmed, a)
  {
    for i := 0 to |trimmed|
      invariant forall k :: 0 <= k < i ==> !trimmed[k].Owns(a)
    {
      if trimmed[i].Owns(a) {
        return true;
      }
    }
    return false;
  }

  /** A label that no range owns although it lies in the window and is not data. */
  predicate Orphan(base: Base, trimmed: seq<Span>, a: Address) {
    base.window.Contains(a) && !Owned(trimmed, a) && a !in base.facts.data
  }

  function WantedBy(base: Base, functions: map<Address, DiscoveredFunction>): set<Address> {
    set a, f | f in functions && a in base.Wanted(functions[f]) :: a
  }

  method OrphansOf(base: Base, f: DiscoveredFunction, trimmed: seq<Span>) returns (orphans: set<Address>)
    ensures orphans == set a | a in base.Wanted(f) && Orphan(base, trimmed, a)
  {
    var wanted := base.Wanted(f);
    var labels := Ascending(wanted, 0);
    AscendingLists(wanted);
    orphans := {};
    for n := 0 to |labels|
      invariant forall a :: a in orphans <==> a in labels[..n] && Orphan(base, trimmed, a)
    {
      var a := labels[n];
      var orphan := IsOrphan(base, trimmed, a);
      OneMoreLabel(labels, n);
      if orphan {
        orphans := orphans + {a};
      }
    }
    assert labels[..|labels|] == labels;
  }

  method IsOrphan(base: Base, trimmed: seq<Span>, a: Address) returns (r: bool)
    ensures r == Orphan(base, trimmed, a)
  {
    var owned := IsOwned(trimmed, a);
    r := base.window.Contains(a) && !owned && a !in base.facts.data;
  }

  lemma OneMoreLabel(labels: seq<Address>, n: nat)
    requires n < |labels|
    ensures forall a :: a in labels[..n + 1] <==> a in labels[..n] || a == labels[n]
  {
    assert labels[..n + 1] == labels[..n] + [labels[n]];
  }

  /** Every orphaned label that the profile does not list as a function yet. */
  method FindContinuations(base: Base, functions: map<Address, DiscoveredFunction>, trimmed: seq<Span>, listed: seq<Address>)
    returns (found: set<Address>)
    ensures found == set a | a in WantedBy(base, functions) && Orphan(base, trimmed, a) && a !in listed
  {
    var addresses := Ascending(functions.Keys, 0);
    AscendingLists(functions.Keys);
    found := {};
    for n := 0 to |addresses|
      invariant forall a :: a in found <==>
                  Orphan(base, trimmed, a) && exists i :: 0 <= i < n && addresses[i] in functions && a in base.Wanted(functions[addresses[i]])
    {
      assert addresses[n] in addresses;
      var orphans := OrphansOf(base, functions[addresses[n]], trimmed);
      found := found + orphans;
    }
    found := set a | a in found && a !in listed;
    forall a | a in WantedBy(base, functions) && Orphan(base, trimmed, a) && a !in listed
      ensures a in found
    {
      var f :| f in functions && a in base.Wanted(functions[f]);
      assert f in addresses;
      var i :| 0 <= i < |addresses| && addresses[i] == f;
    }
  }

  /** Everything a label may be on return: owned by exactly one range, data, outside, or an entry of its own. */
  ghost predicate Accounted(base: Base, functions: map<Address, DiscoveredFunction>, trimmed: seq<Span>, listed: seq<Address>) {
    forall a :: a in WantedBy(base, functions) && base.window.Contains(a) && a !in base.facts.data ==>
      Owned(trimmed, a) || a in listed
  }

  /** The function that owns `a`: the last one entered at or below it, if its range reaches beyond `a`. */
  ghost predicate OwnedBy(functions: map<Address, DiscoveredFunction>, g: Address, a: Address) {
    g in functions && g <= a < functions[g].end && forall h :: h in functions && g < h ==> a < h
  }

  ghost predicate HasOwner(functions: map<Address, DiscoveredFunction>, a: Address) {
    exists g :: OwnedBy(functions, g, a)
  }

  /** Some function refers to `a` by a branch label or, on a dynamic bus, by an external reference. */
  ghost predicate Mentioned(base: Base, functions: map<Address, DiscoveredFunction>, a: Address) {
    exists f :: f in functions && (a in functions[f].labels || (base.dynamicBus && a in functions[f].externals))
  }

  lemma MentionedIff(base: Base, functions: map<Address, DiscoveredFunction>, a: Address)
    ensures Mentioned(base, functions, a) <==> a in WantedBy(base, functions)
  {
    if Mentioned(base, functions, a) {
      var f :| f in functions && (a in functions[f].labels || (base.dynamicBus && a in functions[f].externals));
      assert a in base.Wanted(functions[f]);
    }
    if a in WantedBy(base, functions) {
      var f :| f in functions && a in base.Wanted(functions[f]);
      assert a in functions[f].labels || (base.dynamicBus && a in functions[f].externals);
    }
  }

  lemma BetweenEntries(functions: map<Address, DiscoveredFunction>, spans: seq<Span>, i: nat, h: Address)
    requires Sorted(spans) && SpansOf(functions, spans) && i < |spans| && h in functions
    ensures spans[i].addr < h ==> i + 1 < |spans| && spans[i + 1].addr <= h
  {
    var j :| 0 <= j < |spans| && spans[j].addr == h;
    if spans[i].addr < h {
      assert i < j;
    }
  }

  lemma OwnedHasOwner(functions: map<Address, DiscoveredFunction>, spans: seq<Span>, trimmed: seq<Span>, i: nat, a: Address)
    requires Sorted(spans) && Trimmed(spans, trimmed) && SpansOf(functions, spans)
    requires i < |trimmed| && trimmed[i].Owns(a)
    ensures OwnedBy(functions, spans[i].addr, a)
  {
    hide Sorted, SpansOf;
    assert TrimmedAt(spans, trimmed, i);
    var g := spans[i].addr;
    SpanIsFunction(functions, spans, i);
    forall h | h in functions && g < h
      ensures a < h
    {
      BetweenEntries(functions, spans, i, h);
    }
  }

  lemma SpanIsFunction(functions: map<Address, DiscoveredFunction>, spans: seq<Span>, i: nat)
    requires SpansOf(functions, spans) && i < |spans|
    ensures spans[i].addr in functions && spans[i].end == functions[spans[i].addr].end
  {
  }

  lemma OwnerOwns(functions: map<Address, DiscoveredFunction>, spans: seq<Span>, trimmed: seq<Span>, g: Address, a: Address)
    requires Sorted(spans) && Trimmed(spans, trimmed) && SpansOf(functions, spans) && OwnedBy(functions, g, a)
    ensures Owned(trimmed, a)
  {
    var i :| 0 <= i < |spans| && spans[i].addr == g;
    assert TrimmedAt(spans, trimmed, i);
    if i + 1 < |spans| {
      SpanIsFunction(functions, spans, i + 1);
    }
    assert trimmed[i].Owns(a);
  }

  /** The trimmed ranges give every address the owner it has among the functions. */
  lemma OwnedIff(functions: map<Address, DiscoveredFunction>, spans: seq<Span>, trimmed: seq<Span>, a: Address)
    requires Sorted(spans) && Trimmed(spans, trimmed) && SpansOf(functions, spans)
    ensures Owned(trimmed, a) <==> HasOwner(functions, a)
  {
    hide Sorted, SpansOf, OwnedBy;
    if Owned(trimmed, a) {
      var i :| 0 <= i < |trimmed| && trimmed[i].Owns(a);
      OwnedHasOwner(functions, spans, trimmed, i, a);
    }
    if HasOwner(functions, a) {
      var g :| OwnedBy(functions, g, a);
      OwnerOwns(functions, spans, trimmed, g, a);
    }
  }

  /** A continuation is listed only because, with the functions listed before it, discovery left it without an owner. */
  ghost predicate Orphaned(base: Base, earlier: seq<Address>, a: Address) {
    exists r, known, walks, order ::
      Describes(base.With(earlier), r, known, walks, order) && Mentioned(base, r.functions, a) && !HasOwner(r.functions, a)
  }

  ghost predicate Needed(base: Base, functions: seq<Address>, listed: seq<Address>, a: Address) {
    exists earlier :: functions <= earlier <= listed && a !in earlier && Orphaned(base, earlier, a)
  }

  lemma NeededStill(base: Base, functions: seq<Address>, listed: seq<Address>, added: seq<Address>, a: Address)
    requires Needed(base, functions, listed, a)
    ensures Needed(base, functions, listed + added, a)
  {
    var earlier :| functions <= earlier <= listed && a !in earlier && Orphaned(base, earlier, a);
    assert earlier <= listed + added;
  }

  lemma AppendListed(functions: seq<Address>, listed: seq<Address>, added: seq<Address>)
    requires functions <= listed
    ensures functions <= listed + added
    ensures (listed + added)[|functions|..] == listed[|functions|..] + added
  {
  }

  lemma AllNeeded(base: Base, functions: seq<Address>, listed: seq<Address>, added: seq<Address>)
    requires functions <= listed
    requires forall a :: a in listed[|functions|..] ==> Needed(base, functions, listed, a)
    requires forall a :: a in added ==> a !in listed && Orphaned(base, listed, a)
    ensures forall a :: a in (listed + added)[|functions|..] ==> Needed(base, functions, listed + added, a)
  {
    AppendListed(functions, listed, added);
    forall a | a in (listed + added)[|functions|..]
      ensures Needed(base, functions, listed + added, a)
    {
      if a in added {
        assert listed <= listed + added;
      } else {
        NeededStill(base, functions, listed, added, a);
      }
    }
  }

  lemma AddedAreOrphaned(base: Base, listed: seq<Address>, r: Analysis, known: map<Address, set<Address>>, walks: map<Address, Walked>,
                         order: seq<Address>, spans: seq<Span>, trimmed: seq<Span>, added: seq<Address>)
    requires Describes(base.With(listed), r, known, walks, order)
    requires Sorted(spans) && Trimmed(spans, trimmed) && SpansOf(r.functions, spans)
    requires forall a :: a in added <==> a in WantedBy(base, r.functions) && Orphan(base, trimmed, a) && a !in listed
    ensures forall a :: a in added ==> a !in listed && Orphaned(base, listed, a)
  {
    hide Describes, Sorted, Trimmed, SpansOf, HasOwner, Owned, Mentioned;
    forall a | a in added
      ensures Orphaned(base, listed, a)
    {
      OwnedIff(r.functions, spans, trimmed, a);
      MentionedIff(base, r.functions, a);
    }
  }

  lemma TopDoesNotDependOnList(base: Base, listed: seq<Address>)
    ensures base.With([]).NothingEndsAtTop() <==> base.With(listed).NothingEndsAtTop()
  {
  }

  lemma AddressesAreKeys(inp: Inputs, r: Analysis, known: map<Address, set<Address>>, walks: map<Address, Walked>, order: seq<Address>)
    requires Describes(inp, r, known, walks, order)
    ensures forall a :: a in r.functions ==> r.functions[a].addr == a
  {
    assert forall a :: a in r.functions ==> Matches(r.functions[a], a, walks[a]);
  }

  lemma AllAccounted(base: Base, functions: map<Address, DiscoveredFunction>, trimmed: seq<Span>, listed: seq<Address>)
    requires forall a :: !(a in WantedBy(base, functions) && Orphan(base, trimmed, a) && a !in listed)
    ensures Accounted(base, functions, trimmed, listed)
  {
  }

  lemma SmallerRest(rest: set<Address>, added: seq<Address>)
    requires added != [] && added[0] in rest
    ensures |Without(rest, added)| < |rest|
  {
    assert rest == Without(rest, added) + (rest - Without(rest, added));
    assert added[0] in rest - Without(rest, added);
  }

  ghost function Without(rest: set<Address>, added: seq<Address>): set<Address> {
    set a | a in rest && a !in added
  }

  /** Discovery with the functions listed so far. */
  method Discover(base: Base, listed: seq<Address>)
    returns (r: Option<Analysis>, ghost known: map<Address, set<Address>>, ghost walks: map<Address, Walked>, ghost order: seq<Address>)
    ensures r.Some? ==> Describes(base.With(listed), r.value, known, walks, order)
    ensures r.Some? ==> forall a :: a in r.value.functions ==> r.value.functions[a].addr == a
    ensures r.None? ==> base.With(listed).SomeWalkIsEndless()
    ensures base.With([]).NothingEndsAtTop() ==> r.Some?
  {
    TopDoesNotDependOnList(base, listed);
    r, known, walks, order := Analyze(base.With(listed));
    if r.Some? {
      AddressesAreKeys(base.With(listed), r.value, known, walks, order);
    }
  }

  /** The trimmed ranges of the functions found, and the continuations to list in ascending order. */
  method Extend(base: Base, functions: map<Address, DiscoveredFunction>, listed: seq<Address>)
    returns (added: seq<Address>, ghost spans: seq<Span>, ghost trimmed: seq<Span>)
    requires forall a :: a in functions ==> functions[a].addr == a
    ensures Sorted(spans) && Trimmed(spans, trimmed) && SpansOf(functions, spans)
    ensures forall a :: a in added <==> a in WantedBy(base, functions) && Orphan(base, trimmed, a) && a !in listed
  {
    var all := SpansInOrder(functions);
    var cut := Trim(all);
    spans, trimmed := all, cut;
    var found := FindContinuations(base, functions, cut, listed);
    added := Ascending(found, 0);
    AscendingLists(found);
  }

  /** One round of the loop. */
  method Round(base: Base, listed: seq<Address>)
    returns (r: Option<Analysis>, added: seq<Address>, ghost spans: seq<Span>, ghost trimmed: seq<Span>,
             ghost known: map<Address, set<Address>>, ghost walks: map<Address, Walked>, ghost order: seq<Address>)
    ensures forall a :: a in added ==> base.window.Contains(a) && a !in base.facts.data && a !in listed
    ensures r.Some? ==> Describes(base.With(listed), r.value, known, walks, order)
    ensures r.Some? ==> Sorted(spans) && Trimmed(spans, trimmed) && SpansOf(r.value.functions, spans)
    ensures r.Some? && added == [] ==> Accounted(base, r.value.functions, trimmed, listed)
    ensures r.Some? ==> forall a :: a in added ==> a !in listed && Orphaned(base, listed, a)
    ensures r.None? ==> base.With(listed).SomeWalkIsEndless()
    ensures base.With([]).NothingEndsAtTop() ==> r.Some?
  {
    added, spans, trimmed := [], [], [];
    r, known, walks, order := Discover(base, listed);
    if r.Some? {
      added, spans, trimmed := Extend(base, r.value.functions, listed);
      AddedAreOrphaned(base, listed, r.value, known, walks, order, spans, trimmed, added);
      if added == [] {
        AllAccounted(base, r.value.functions, trimmed, listed);
      }
    }
  }

  /** `analyze_with_continuation_roots`: `listed` is the profile's function list with the continuations added. */
  method AnalyzeWithContinuations(base: Base, functions: seq<Address>)
    returns (r: Option<Analysis>, listed: seq<Address>,
             ghost spans: seq<Span>, ghost trimmed: seq<Span>,
             ghost known: map<Address, set<Address>>, ghost walks: map<Address, Walked>, ghost order: seq<Address>)
    ensures functions <= listed
    ensures forall a :: a in listed[|functions|..] ==> base.window.Contains(a) && a !in base.facts.data && Needed(base, functions, listed, a)
    ensures r.Some? ==> Describes(base.With(listed), r.value, known, walks, order)
    ensures r.Some? ==> Sorted(spans) && Trimmed(spans, trimmed) && SpansOf(r.value.functions, spans)
    ensures r.Some? ==> Accounted(base, r.value.functions, trimmed, listed)
    ensures r.None? ==> base.With(listed).SomeWalkIsEndless()
    ensures base.With([]).NothingEndsAtTop() ==> r.Some?
  {
    listed := functions;
    ghost var rest: set<Address> := set a: Address | base.window.Contains(a);
    while true
      invariant functions <= listed
      invariant forall a :: a in listed[|functions|..] ==> base.window.Contains(a) && a !in base.facts.data
      invariant forall a :: a in listed[|functions|..] ==> Needed(base, functions, listed, a)
      invariant forall a: Address :: base.window.Contains(a) && a !in listed ==> a in rest
      decreases |rest|
    {
      var added;
      r, added, spans, trimmed, known, walks, order := Round(base, listed);
      if r.None? || added == [] {
        return;
      }
      SmallerRest(rest, added);
      AllNeeded(base, functions, listed, added);
      AppendListed(functions, listed, added);
      listed, rest := listed + added, Without(rest, added);
    }
  }

  lemma ListedIsRoot(base: Base, listed: seq<Address>, roots: RootMap, a: Address)
    requires InitialRecorded(base.With(listed), roots) && a in listed && a != 0 && base.window.Contains(a)
    ensures a in roots
  {
    var k :| 0 <= k < |listed| && listed[k] == a;
    var inp := base.With(listed);
    assert inp.initial[|base.vectors| + k] == (a, ProfileRoot);
  }

  /**
   On return every branch label (and on a dynamic bus every external reference) inside the window
   that is not data has exactly one owner, the last function entered at or below it, or is itself
   a discovered function at whose entry nothing decodes.
   */
  lemma LabelsAreOwned(base: Base, r: Analysis, listed: seq<Address>, spans: seq<Span>, trimmed: seq<Span>,
                       known: map<Address, set<Address>>, walks: map<Address, Walked>, order: seq<Address>, a: Address)
    requires Describes(base.With(listed), r, known, walks, order)
    requires Sorted(spans) && Trimmed(spans, trimmed) && SpansOf(r.functions, spans)
    requires Accounted(base, r.functions, trimmed, listed)
    requires Mentioned(base, r.functions, a) && base.window.start <= a <= base.window.last && a !in base.facts.data && a != 0
    ensures HasOwner(r.functions, a) || (a in r.functions && r.functions[a].end <= a)
    ensures forall g, h :: OwnedBy(r.functions, g, a) && OwnedBy(r.functions, h, a) ==> g == h
    ensures Owned(trimmed, a) <==> HasOwner(r.functions, a)
  {
    MentionedIff(base, r.functions, a);
    OwnedIff(r.functions, spans, trimmed, a);
    if !Owned(trimmed, a) {
      ListedIsRoot(base, listed, r.roots, a);
      var i :| 0 <= i < |spans| && spans[i].addr == a;
      if spans[i].addr < spans[i].end {
        EntryIsOwned(spans, trimmed, i);
      }
    }
  }
}
