/**
 What discovery finds, on the decoded instructions: the functions are the least set that
 holds the initial roots and whatever a discovered function calls or jumps to.
 */
module DiscoveryLaws {
  import opened Bytes
  import opened FunctionWalk
  import opened WalkLaws
  import opened FirstOccurrences
  import opened Discovery

  /** The walk of `a`, with the roots known when it was made. */
  function ContextOf(inp: Inputs, known: map<Address, set<Address>>, a: Address): Context
    requires a in known
  {
    Context(inp.table, inp.prg, a, known[a], inp.window, inp.facts)
  }

  /** The walk of `caller` decoded a call, or a jump that closes no loop, to `target` in the window. */
  ghost predicate Reaches(inp: Inputs, known: map<Address, set<Address>>, walks: map<Address, Walked>,
                          caller: Address, target: Address, kind: RootKind)
  {
    && caller in known && caller in walks && walks[caller].Walked?
    && FunctionNamed(ContextOf(inp, known, caller), walks[caller].state.code, target, kind)
  }

  lemma ReachedAreFound(inp: Inputs, known: map<Address, set<Address>>, walks: map<Address, Walked>,
                        caller: Address, target: Address, kind: RootKind)
    requires WalksMade(inp, known, walks)
    ensures Reaches(inp, known, walks, caller, target, kind) <==> FoundBy(walks, caller, (target, kind))
  {
    hide FunctionNamed, WalkFunction;
    if caller in walks {
      WalkRecords(ContextOf(inp, known, caller), target, kind);
    }
  }

  /**
   Exactly which functions are discovered, and as what: each address and kind is an initial root's,
   or that of a call or jump some discovered function decodes.
   */
  lemma DiscoveredExactly(inp: Inputs, r: Analysis, known: map<Address, set<Address>>, walks: map<Address, Walked>, order: seq<Address>,
                          target: Address, kind: RootKind)
    requires Describes(inp, r, known, walks, order)
    ensures target in r.functions && kind in r.functions[target].kinds <==>
              inp.Given((target, kind)) || exists caller :: caller in r.functions && Reaches(inp, known, walks, caller, target, kind)
  {
    hide Reaches, Justified, KnownThen, Classified, WalksMade;
    forall caller
      ensures Reaches(inp, known, walks, caller, target, kind) <==> FoundBy(walks, caller, (target, kind))
    {
      ReachedAreFound(inp, known, walks, caller, target, kind);
    }
    RecordedIff(inp, walks, r.roots, (target, kind));
  }

  lemma RecordedIff(inp: Inputs, walks: map<Address, Walked>, roots: RootMap, x: (Address, RootKind))
    requires KindsJustified(inp, walks, roots) && RootsTaken(walks, roots) && InitialRecorded(inp, roots)
    ensures Recorded(roots, x) <==> inp.Given(x) || exists p :: FoundBy(walks, p, x)
  {
    if inp.Given(x) {
      var i :| 0 <= i < |inp.initial| && inp.initial[i] == x;
      assert Recorded(roots, inp.initial[i]);
    }
    if p :| FoundBy(walks, p, x) {
      var found := walks[p].state.roots;
      assert AllRecorded(roots, found);
      var i :| 0 <= i < |found| && found[i] == x;
      assert Recorded(roots, found[i]);
    }
  }

  /** An address is an initial root when it is given with some kind. */
  lemma InitialIff(inp: Inputs, a: Address)
    ensures inp.Initial(a) <==> exists kind :: inp.Given((a, kind))
  {
    if inp.Initial(a) {
      var i :| 0 <= i < |inp.initial| && inp.initial[i].0 == a;
      assert inp.initial[i] == (a, inp.initial[i].1) && inp.Given((a, inp.initial[i].1));
    }
    if kind :| inp.Given((a, kind)) {
      var i :| 0 <= i < |inp.initial| && inp.initial[i] == (a, kind);
    }
  }

  /** Every function has a kind. */
  lemma EveryFunctionHasAKind(inp: Inputs, r: Analysis, known: map<Address, set<Address>>, walks: map<Address, Walked>, order: seq<Address>,
                              a: Address) returns (kind: RootKind)
    requires Describes(inp, r, known, walks, order) && a in r.functions
    ensures kind in r.functions[a].kinds
  {
    hide Classified, KnownThen, KindsJustified;
    assert a in order;
    var i :| 0 <= i < |order| && order[i] == a;
    if inp.Initial(a) {
      var j :| 0 <= j < |inp.initial| && inp.initial[j].0 == a;
      assert Recorded(r.roots, inp.initial[j]);
      kind := inp.initial[j].1;
    } else {
      var j :| 0 <= j < i && CallsTo(walks, order[j], a);
      var found := walks[order[j]].state.roots;
      assert AllRecorded(r.roots, found);
      var k :| 0 <= k < |found| && found[k].0 == a;
      assert Recorded(r.roots, found[k]);
      kind := found[k].1;
    }
  }

  /** Discovery is the least closed set: any set that holds the initial roots and what its members call or jump to holds every function. */
  lemma DiscoveredIsLeast(inp: Inputs, r: Analysis, known: map<Address, set<Address>>, walks: map<Address, Walked>,
                          order: seq<Address>, closed: set<Address>)
    requires Describes(inp, r, known, walks, order)
    requires forall a :: inp.Initial(a) ==> a in closed
    requires forall p, a, kind :: p in closed && Reaches(inp, known, walks, p, a, kind) ==> a in closed
    ensures r.functions.Keys <= closed
  {
    forall p, a | p in closed && CallsTo(walks, p, a)
      ensures a in closed
    {
      var found := walks[p].state.roots;
      var i :| 0 <= i < |found| && found[i].0 == a;
      assert FoundBy(walks, p, (a, found[i].1));
      ReachedAreFound(inp, known, walks, p, a, found[i].1);
    }
    OrderInClosed(inp, walks, order, closed, |order|);
  }

  lemma {:induction false} OrderInClosed(inp: Inputs, walks: map<Address, Walked>, order: seq<Address>, closed: set<Address>, n: nat)
    requires Justified(inp, walks, order) && n <= |order|
    requires forall a :: inp.Initial(a) ==> a in closed
    requires forall p, a :: p in closed && CallsTo(walks, p, a) ==> a in closed
    ensures forall i :: 0 <= i < n ==> order[i] in closed
  {
    if n > 0 {
      OrderInClosed(inp, walks, order, closed, n - 1);
      if !inp.Initial(order[n - 1]) {
        var j :| 0 <= j < n - 1 && CallsTo(walks, order[j], order[n - 1]);
      }
    }
  }

  lemma CallsToIff(walks: map<Address, Walked>, p: Address, a: Address)
    ensures CallsTo(walks, p, a) <==> exists kind :: FoundBy(walks, p, (a, kind))
  {
    if CallsTo(walks, p, a) {
      var found := walks[p].state.roots;
      var i :| 0 <= i < |found| && found[i].0 == a;
      assert FoundBy(walks, p, (a, found[i].1));
    }
    if kind :| FoundBy(walks, p, (a, kind)) {
      var found := walks[p].state.roots;
      var i :| 0 <= i < |found| && found[i] == (a, kind);
    }
  }

  ghost predicate ReachesAs(inp: Inputs, known: map<Address, set<Address>>, walks: map<Address, Walked>, caller: Address, target: Address) {
    exists kind :: Reaches(inp, known, walks, caller, target, kind)
  }

  lemma ReachesAsIff(inp: Inputs, known: map<Address, set<Address>>, walks: map<Address, Walked>, caller: Address, target: Address)
    requires WalksMade(inp, known, walks)
    ensures ReachesAs(inp, known, walks, caller, target) <==> CallsTo(walks, caller, target)
  {
    hide Reaches, FoundBy, CallsTo, WalksMade;
    CallsToIff(walks, caller, target);
    forall kind
      ensures Reaches(inp, known, walks, caller, target, kind) <==> FoundBy(walks, caller, (target, kind))
    {
      ReachedAreFound(inp, known, walks, caller, target, kind);
    }
  }

  /** Each function was walked knowing the initial roots and what the functions walked before it call or jump to, and nothing else. */
  lemma KnownExactly(inp: Inputs, r: Analysis, known: map<Address, set<Address>>, walks: map<Address, Walked>, order: seq<Address>,
                     n: nat, a: Address)
    requires Describes(inp, r, known, walks, order) && n < |order|
    ensures order[n] in known
    ensures a in known[order[n]] <==> inp.Initial(a) || exists j: nat :: j < n && ReachesAs(inp, known, walks, order[j], a)
  {
    hide ReachesAs, CallsTo, Classified, KindsJustified, Justified, WalksMade;
    assert KnownAt(inp, walks, order, n, known);
    forall j: nat | j < n
      ensures ReachesAs(inp, known, walks, order[j], a) <==> CallsTo(walks, order[j], a)
    {
      ReachesAsIff(inp, known, walks, order[j], a);
    }
  }

  /**
   The order of the walks: the initial roots ascending, then what each function in turn calls or
   jumps to in the order its walk found it, each address where it first comes up.
   */
  lemma WalkedInOrderOfArrival(inp: Inputs, r: Analysis, known: map<Address, set<Address>>, walks: map<Address, Walked>, order: seq<Address>)
    requires Describes(inp, r, known, walks, order)
    ensures order == FirstSeen(Arrivals(inp, walks, order)) && Distinct(order)
    ensures forall a :: a in order <==> a in r.functions
  {
    hide Classified, KindsJustified, KnownThen, WalksMade;
    FirstSeenIsDistinct(Arrivals(inp, walks, order));
  }

  /** What a function's entry lists, on the instructions its walk decoded. */
  lemma FunctionRecords(inp: Inputs, r: Analysis, known: map<Address, set<Address>>, walks: map<Address, Walked>, order: seq<Address>,
                        a: Address, x: Address)
    requires Describes(inp, r, known, walks, order) && a in r.functions
    ensures a in known && a in walks
    ensures var f := r.functions[a];
            var c := ContextOf(inp, known, a);
            var code := walks[a].state.code;
            && Traced(c, code) && EndsAt(c, code, f.end, walks[a].ending)
            && (x in f.labels <==> LabelNamed(c, code, x) && a < x < f.end)
            && (x in f.externals <==> ExternalNamed(c, code, x))
            && (x in f.unresolved <==> PointerNamed(c, code, x))
  {
    hide WalkFunction, Traced, EndsAt, LabelNamed, ExternalNamed, PointerNamed, FunctionNamed, Classified, KnownThen, KindsJustified, Justified;
    var c := ContextOf(inp, known, a);
    assert Matches(r.functions[a], a, walks[a]);
    WalkRecords(c, x, JsrCallee);
    WalkIsTraced(c);
  }

  /** Byte `i` of the image belongs to an instruction the walk of some function decoded. */
  ghost predicate InDecoded(r: Analysis, walks: map<Address, Walked>, i: nat) {
    exists a, k :: a in r.functions && a in walks && walks[a].Walked? && 0 <= k < |walks[a].state.code|
                   && walks[a].state.code[k].offset <= i && i - walks[a].state.code[k].offset < walks[a].state.code[k].len
  }

  ghost predicate IsDeclared(inp: Inputs, i: nat) {
    exists k :: 0 <= k < |inp.declared| && inp.declared[k].offset <= i && i - inp.declared[k].offset < inp.declared[k].len
  }

  /** The byte classes: code where some walk decoded an instruction, else data where it is declared. */
  lemma ClassesExactly(inp: Inputs, r: Analysis, known: map<Address, set<Address>>, walks: map<Address, Walked>, order: seq<Address>, i: nat)
    requires Describes(inp, r, known, walks, order)
    ensures |r.classes| == |inp.prg|
    ensures i < |inp.prg| ==>
              && (r.classes[i].Code? <==> InDecoded(r, walks, i))
              && (r.classes[i].Data? <==> !InDecoded(r, walks, i) && IsDeclared(inp, i))
  {
    hide WalksMade, KnownThen, KindsJustified, Justified, WalkFunction;
    CodeByteIff(r, walks, i);
    if CoveredBy(inp.declared, i) {
      var k :| 0 <= k < |inp.declared| && Covers(inp.declared[k], i);
      assert IsDeclared(inp, i);
    }
    if IsDeclared(inp, i) {
      var k :| 0 <= k < |inp.declared| && inp.declared[k].offset <= i && i - inp.declared[k].offset < inp.declared[k].len;
      assert Covers(inp.declared[k], i);
    }
  }

  lemma CodeByteIff(r: Analysis, walks: map<Address, Walked>, i: nat)
    requires FunctionsMatch(walks, r.functions)
    ensures CodeByte(walks, i) <==> InDecoded(r, walks, i)
  {
    if CodeByte(walks, i) {
      var a :| a in walks && walks[a].Walked? && CoveredBy(walks[a].state.code, i);
      var k :| 0 <= k < |walks[a].state.code| && Covers(walks[a].state.code[k], i);
    }
    if InDecoded(r, walks, i) {
      var a, k :| a in r.functions && a in walks && walks[a].Walked? && 0 <= k < |walks[a].state.code|
                  && walks[a].state.code[k].offset <= i && i - walks[a].state.code[k].offset < walks[a].state.code[k].len;
      assert Covers(walks[a].state.code[k], i);
      assert CoveredBy(walks[a].state.code, i);
    }
  }
}
