/**
 Function discovery over one window: a worklist of roots, one walk per root with the
 roots known at that moment, and a byte classification of the image.
 Names, warnings and the report text are not modelled.
 */
module Discovery {
  import opened Bytes
  import opened Cpu6502
  import opened AscendingOrder
  import opened FirstOccurrences
  import opened FunctionWalk

  datatype ByteClass = Code | Data | Unknown

  predicate Covers(r: CodeRange, i: nat) {
    r.offset <= i < r.offset + r.len
  }

  predicate CoveredBy(ranges: seq<CodeRange>, i: nat) {
    exists j :: 0 <= j < |ranges| && Covers(ranges[j], i)
  }

  /** The classification of every byte of the image. */
  class ClassMap {
    var bytes: array<ByteClass>

    constructor (len: nat)
      ensures fresh(bytes) && bytes[..] == seq(len, _ => Unknown)
    {
      bytes := new ByteClass[len](_ => Unknown);
    }

    /** Marks a range as code, whatever it was; bytes past the image are ignored. */
    method MarkCode(r: CodeRange)
      modifies bytes
      ensures forall i :: 0 <= i < bytes.Length ==> bytes[i] == if Covers(r, i) then Code else old(bytes[i])
    {
      var end := if r.offset + r.len < bytes.Length then r.offset + r.len else bytes.Length;
      var i := r.offset;
      while i < end
        invariant r.offset <= i && (r.offset <= end ==> i <= end)
        invariant forall k :: 0 <= k < bytes.Length ==>
                    bytes[k] == if r.offset <= k < i then Code else old(bytes[k])
      {
        bytes[i] := Code;
        i := i + 1;
      }
    }

    /** Marks a range as data except where it is already code. */
    method MarkData(r: CodeRange)
      modifies bytes
      ensures forall i :: 0 <= i < bytes.Length ==>
                bytes[i] == if Covers(r, i) && old(bytes[i]) != Code then Data else old(bytes[i])
    {
      var end := if r.offset + r.len < bytes.Length then r.offset + r.len else bytes.Length;
      var i := r.offset;
      while i < end
        invariant r.offset <= i && (r.offset <= end ==> i <= end)
        invariant forall k :: 0 <= k < bytes.Length ==>
                    bytes[k] == if r.offset <= k < i && old(bytes[k]) != Code then Data else old(bytes[k])
      {
        if bytes[i] != Code {
          bytes[i] := Data;
        }
        i := i + 1;
      }
    }

    method MarkAllCode(ranges: seq<CodeRange>)
      modifies bytes
      ensures forall i :: 0 <= i < bytes.Length ==> bytes[i] == if CoveredBy(ranges, i) then Code else old(bytes[i])
    {
      var n := 0;
      while n < |ranges|
        invariant 0 <= n <= |ranges|
        invariant forall i :: 0 <= i < bytes.Length ==> bytes[i] == if CoveredBy(ranges[..n], i) then Code else old(bytes[i])
      {
        MarkCode(ranges[n]);
        CoveredByMore(ranges, n);
        n := n + 1;
      }
      assert ranges[..n] == ranges;
    }

    method MarkAllData(ranges: seq<CodeRange>)
      requires forall i :: 0 <= i < bytes.Length ==> bytes[i] == Unknown
      modifies bytes
      ensures forall i :: 0 <= i < bytes.Length ==> bytes[i] == if CoveredBy(ranges, i) then Data else Unknown
    {
      var n := 0;
      while n < |ranges|
        invariant 0 <= n <= |ranges|
        invariant forall i :: 0 <= i < bytes.Length ==> bytes[i] == if CoveredBy(ranges[..n], i) then Data else Unknown
      {
        MarkData(ranges[n]);
        CoveredByMore(ranges, n);
        n := n + 1;
      }
      assert ranges[..n] == ranges;
    }
  }

  lemma CoveredByMore(ranges: seq<CodeRange>, n: nat)
    requires n < |ranges|
    ensures forall i: nat :: CoveredBy(ranges[..n + 1], i) <==> CoveredBy(ranges[..n], i) || Covers(ranges[n], i)
  {
    forall i: nat
      ensures CoveredBy(ranges[..n + 1], i) <==> CoveredBy(ranges[..n], i) || Covers(ranges[n], i)
    {
      assert forall j :: 0 <= j < n ==> ranges[..n + 1][j] == ranges[..n][j];
      assert ranges[..n + 1][n] == ranges[n];
    }
  }

  datatype Inputs = Inputs(
    table: Table, prg: seq<Byte>, window: Window, facts: BankFacts,
    declared: seq<CodeRange>, initial: seq<(Address, RootKind)>)
  {
    function Walk(entry: Address, known: set<Address>): Walked {
      WalkFunction(Context(table, prg, entry, known, window, facts))
    }

    /** In a 32 KiB image no terminator or annotated call of the window has its last byte at $FFFF. */
    ghost predicate NothingEndsAtTop() {
      |prg| <= 0x8000 && forall at :: window.Contains(at) ==> !EndsAtTop(Context(table, prg, window.start, {}, window, facts), at)
    }

    /** Some walk of the window never ends, with some roots known. */
    ghost predicate SomeWalkIsEndless() {
      exists a, known :: window.Contains(a) && Walk(a, known).Endless?
    }

    /** Roots outside the window, and address zero, are not taken. */
    predicate Accepts(a: Address) {
      a != 0 && window.Contains(a)
    }

    /** An accepted initial root, with its kind. */
    predicate Given(x: (Address, RootKind)) {
      Accepts(x.0) && x in initial
    }

    predicate Initial(a: Address) {
      Accepts(a) && exists i :: 0 <= i < |initial| && initial[i].0 == a
    }
  }

  datatype DiscoveredFunction = DiscoveredFunction(
    addr: Address, end: Address, kinds: seq<RootKind>,
    labels: set<Address>, externals: set<Address>, unresolved: set<Address>)

  type RootMap = map<Address, seq<RootKind>>

  type Queue = seq<(Address, RootKind)>

  function Record(roots: RootMap, a: Address, kind: RootKind): RootMap {
    if a !in roots then roots[a := [kind]]
    else if kind in roots[a] then roots
    else roots[a := roots[a] + [kind]]
  }

  predicate Recorded(roots: RootMap, x: (Address, RootKind)) {
    x.0 in roots && x.1 in roots[x.0]
  }

  /** `later` knows at least the roots and kinds of `earlier`, with earlier kinds first. */
  ghost predicate Extends(later: RootMap, earlier: RootMap) {
    forall a :: a in earlier ==> a in later && earlier[a] <= later[a]
  }

  lemma RecordExtends(roots: RootMap, a: Address, kind: RootKind)
    ensures Extends(Record(roots, a, kind), roots) && Recorded(Record(roots, a, kind), (a, kind))
    ensures Record(roots, a, kind).Keys == roots.Keys + {a}
    ensures forall x :: Recorded(Record(roots, a, kind), x) <==> Recorded(roots, x) || x == (a, kind)
  {
  }

  method InitialRoots(inp: Inputs) returns (roots: RootMap)
    ensures forall a :: a in roots <==> inp.Initial(a)
    ensures InitialRecorded(inp, roots)
    ensures forall x :: Recorded(roots, x) ==> inp.Given(x)
    ensures forall a :: a in roots ==> roots[a] != []
  {
    roots := map[];
    var n := 0;
    while n < |inp.initial|
      invariant 0 <= n <= |inp.initial|
      invariant forall a :: a in roots <==> inp.Accepts(a) && exists i :: 0 <= i < n && inp.initial[i].0 == a
      invariant forall i :: 0 <= i < n && inp.Accepts(inp.initial[i].0) ==> Recorded(roots, inp.initial[i])
      invariant forall x :: Recorded(roots, x) ==> inp.Given(x)
      invariant forall a :: a in roots ==> roots[a] != []
    {
      var (a, kind) := inp.initial[n];
      assert inp.initial[n] in inp.initial;
      if inp.Accepts(a) {
        RecordExtends(roots, a, kind);
        roots := Record(roots, a, kind);
      }
      n := n + 1;
    }
  }

  function Addresses(queue: Queue): (r: seq<Address>)
    ensures |r| == |queue| && forall i :: 0 <= i < |r| ==> r[i] == queue[i].0
  {
    seq(|queue|, i requires 0 <= i < |queue| => queue[i].0)
  }

  lemma AddressesAppend(a: Queue, b: Queue)
    ensures Addresses(a + b) == Addresses(a) + Addresses(b)
  {
  }

  /** Appending one address any number of times adds it once. */
  lemma RepeatedOnce(done: seq<Address>, entries: Queue, a: Address)
    requires entries != [] && a !in done && forall i :: 0 <= i < |entries| ==> entries[i].0 == a
    ensures FirstSeen(done + Addresses(entries)) == FirstSeen(done) + [a]
  {
    var rest := Addresses(entries)[1..];
    assert done + Addresses(entries) == (done + [a]) + rest;
    FirstSeenOne(done, a);
    NothingNew(done + [a], rest);
  }

  predicate Queued(queue: Queue, a: Address) {
    exists i :: 0 <= i < |queue| && queue[i].0 == a
  }

  /** The queue holds the first `n` addresses, each where it first comes up. */
  ghost predicate QueuesFirst(queue: Queue, addresses: seq<Address>, n: nat)
    requires n <= |addresses|
  {
    && (forall a :: Queued(queue, a) <==> a in addresses[..n])
    && FirstSeen(Addresses(queue)) == addresses[..n]
  }

  lemma QueueNext(queue: Queue, addresses: seq<Address>, n: nat, entries: Queue)
    requires n < |addresses| && Increasing(addresses) && QueuesFirst(queue, addresses, n)
    requires entries != [] && forall i :: 0 <= i < |entries| ==> entries[i].0 == addresses[n]
    ensures QueuesFirst(queue + entries, addresses, n + 1)
  {
    var a := addresses[n];
    assert addresses[..n + 1] == addresses[..n] + [a];
    QueuedAppend(queue, entries, a);
    AddressesAppend(queue, entries);
    assert a !in addresses[..n];
    assert a !in Addresses(queue);
    RepeatedOnce(Addresses(queue), entries, a);
  }

  lemma QueuesAll(queue: Queue, roots: RootMap)
    requires QueuesFirst(queue, Ascending(roots.Keys, 0), |Ascending(roots.Keys, 0)|)
    ensures forall a :: Queued(queue, a) <==> a in roots
    ensures FirstSeen(Addresses(queue)) == Ascending(roots.Keys, 0)
  {
    var addresses := Ascending(roots.Keys, 0);
    AscendingLists(roots.Keys);
    assert addresses[..|addresses|] == addresses;
  }

  /** One queue entry per root and kind, in ascending address order. */
  method InitialQueue(roots: RootMap) returns (queue: Queue)
    requires forall a :: a in roots ==> roots[a] != []
    ensures forall a :: Queued(queue, a) <==> a in roots
    ensures FirstSeen(Addresses(queue)) == Ascending(roots.Keys, 0)
  {
    hide QueuesFirst, FirstSeen, Addresses, Ascending, Queued;
    var addresses := Ascending(roots.Keys, 0);
    AscendingLists(roots.Keys);
    queue := [];
    QueuesNothing(addresses);
    var n := 0;
    while n < |addresses|
      invariant 0 <= n <= |addresses| && QueuesFirst(queue, addresses, n)
    {
      var a := addresses[n];
      assert a in addresses;
      var kinds := roots[a];
      var entries := seq(|kinds|, i requires 0 <= i < |kinds| => (a, kinds[i]));
      QueueNext(queue, addresses, n, entries);
      queue := queue + entries;
      n := n + 1;
    }
    QueuesAll(queue, roots);
  }

  lemma QueuesNothing(addresses: seq<Address>)
    ensures QueuesFirst([], addresses, 0)
  {
  }

  lemma QueuedAppend(queue: Queue, entries: Queue, a: Address)
    requires entries != [] && forall i :: 0 <= i < |entries| ==> entries[i].0 == a
    ensures forall b :: Queued(queue + entries, b) <==> Queued(queue, b) || b == a
  {
    var all := queue + entries;
    assert all[|queue|] == entries[0];
    forall b
      ensures Queued(all, b) <==> Queued(queue, b) || b == a
    {
      if Queued(queue, b) {
        var i :| 0 <= i < |queue| && queue[i].0 == b;
        assert all[i] == queue[i];
      }
      if Queued(all, b) {
        var i :| 0 <= i < |all| && all[i].0 == b;
        assert i < |queue| ==> all[i] == queue[i];
        assert i >= |queue| ==> all[i] == entries[i - |queue|];
      }
    }
  }

  /** The entries whose address is not discovered yet. */
  function Undiscovered(found: Queue, discovered: set<Address>): Queue {
    if found == [] then []
    else
      var n := |found| - 1;
      Undiscovered(found[..n], discovered) + if found[n].0 in discovered then [] else [found[n]]
  }

  lemma UndiscoveredNone(discovered: set<Address>)
    ensures Undiscovered([], discovered) == []
  {
  }

  lemma UndiscoveredOne(found: Queue, n: nat, discovered: set<Address>)
    requires n < |found|
    ensures Undiscovered(found[..n + 1], discovered)
            == Undiscovered(found[..n], discovered) + if found[n].0 in discovered then [] else [found[n]]
  {
    assert found[..n + 1][..n] == found[..n];
  }

  /** Records every new root and queues those not yet discovered. */
  method Enqueue(roots0: RootMap, queue0: Queue, discovered: set<Address>, found: Queue) returns (roots: RootMap, queue: Queue)
    ensures Extends(roots, roots0)
    ensures forall a :: a in roots <==> a in roots0 || Queued(found, a)
    ensures AllRecorded(roots, found)
    ensures forall x :: Recorded(roots, x) ==> Recorded(roots0, x) || x in found
    ensures forall a :: Queued(queue, a) <==> Queued(queue0, a) || (Queued(found, a) && a !in discovered)
    ensures queue == queue0 + Undiscovered(found, discovered)
  {
    hide Undiscovered, Record;
    UndiscoveredNone(discovered);
    roots, queue := roots0, queue0;
    var n := 0;
    while n < |found|
      invariant 0 <= n <= |found|
      invariant Extends(roots, roots0)
      invariant forall a :: a in roots <==> a in roots0 || Queued(found[..n], a)
      invariant forall i :: 0 <= i < n ==> Recorded(roots, found[i])
      invariant forall x :: Recorded(roots, x) ==> Recorded(roots0, x) || x in found
      invariant forall a :: Queued(queue, a) <==> Queued(queue0, a) || (Queued(found[..n], a) && a !in discovered)
      invariant queue == queue0 + Undiscovered(found[..n], discovered)
    {
      var (a, kind) := found[n];
      RecordExtends(roots, a, kind);
      QueuedAppend(found[..n], [found[n]], a);
      assert found[..n + 1] == found[..n] + [found[n]];
      UndiscoveredOne(found, n, discovered);
      roots := Record(roots, a, kind);
      if a !in discovered {
        QueuedAppend(queue, [(a, kind)], a);
        queue := queue + [(a, kind)];
      }
      n := n + 1;
    }
    assert found[..n] == found;
  }

  // ----- the worklist -----

  /** The walks made so far, each with the roots known when it was made. */
  ghost predicate WalksMade(inp: Inputs, known: map<Address, set<Address>>, walks: map<Address, Walked>) {
    && known.Keys == walks.Keys
    && forall a :: a in walks ==> walks[a].Walked? && walks[a] == inp.Walk(a, known[a])
  }

  ghost predicate CallsTo(walks: map<Address, Walked>, caller: Address, a: Address) {
    caller in walks && walks[caller].Walked? && Queued(walks[caller].state.roots, a)
  }

  ghost predicate CalledBefore(walks: map<Address, Walked>, order: seq<Address>, n: nat, a: Address)
    requires n <= |order|
  {
    exists j :: 0 <= j < n && CallsTo(walks, order[j], a)
  }

  /** Functions in discovery order: each is an initial root or called by an earlier one. */
  ghost predicate Justified(inp: Inputs, walks: map<Address, Walked>, order: seq<Address>) {
    && (forall a :: a in order <==> a in walks)
    && forall i :: 0 <= i < |order| ==> inp.Initial(order[i]) || CalledBefore(walks, order, i, order[i])
  }

  ghost predicate RootsJustified(inp: Inputs, walks: map<Address, Walked>, order: seq<Address>, roots: RootMap) {
    forall a :: a in roots ==> inp.window.Contains(a) && (inp.Initial(a) || CalledBefore(walks, order, |order|, a))
  }

  ghost predicate AllRecorded(roots: RootMap, found: Queue) {
    forall i :: 0 <= i < |found| ==> Recorded(roots, found[i])
  }

  /** Every root a walk found is recorded, with its kind. */
  ghost predicate RootsTaken(walks: map<Address, Walked>, roots: RootMap) {
    forall a :: a in walks && walks[a].Walked? ==> AllRecorded(roots, walks[a].state.roots)
  }

  ghost predicate FoundBy(walks: map<Address, Walked>, p: Address, x: (Address, RootKind)) {
    p in walks && walks[p].Walked? && x in walks[p].state.roots
  }

  /** Every recorded kind was given for the root, or found by a walk. */
  ghost predicate KindsJustified(inp: Inputs, walks: map<Address, Walked>, roots: RootMap) {
    forall x :: Recorded(roots, x) ==> inp.Given(x) || exists p :: FoundBy(walks, p, x)
  }

  /** Each function was walked knowing exactly the initial roots and those found by the walks before it. */
  ghost predicate KnownThen(inp: Inputs, walks: map<Address, Walked>, order: seq<Address>, known: map<Address, set<Address>>) {
    forall n :: 0 <= n < |order| ==> KnownAt(inp, walks, order, n, known)
  }

  ghost predicate KnownAt(inp: Inputs, walks: map<Address, Walked>, order: seq<Address>, n: nat, known: map<Address, set<Address>>)
    requires n < |order|
  {
    && order[n] in known
    && forall a :: a in known[order[n]] <==> inp.Initial(a) || CalledBefore(walks, order, n, a)
  }

  function InitialAddresses(inp: Inputs): set<Address> {
    set a: Address | inp.Initial(a)
  }

  /** Every address in the order it comes up: the initial ones ascending, then what each walk found, walk by walk. */
  ghost function Arrivals(inp: Inputs, walks: map<Address, Walked>, order: seq<Address>): seq<Address> {
    if order == [] then Ascending(InitialAddresses(inp), 0)
    else
      var a := order[|order| - 1];
      Arrivals(inp, walks, order[..|order| - 1])
      + if a in walks && walks[a].Walked? then Addresses(walks[a].state.roots) else []
  }

  /** What was walked and what waits are, but for repetitions, what came up. */
  ghost predicate InTurn(inp: Inputs, walks: map<Address, Walked>, order: seq<Address>, queue: Queue) {
    FirstSeen(order + Addresses(queue)) == FirstSeen(Arrivals(inp, walks, order))
  }

  ghost predicate Distinct(order: seq<Address>) {
    forall i, j :: 0 <= i < j < |order| ==> order[i] != order[j]
  }

  ghost predicate CodeByte(walks: map<Address, Walked>, i: nat) {
    exists a :: a in walks && walks[a].Walked? && CoveredBy(walks[a].state.code, i)
  }

  /** Code exactly where some walk decoded; data exactly where declared and never decoded. */
  ghost predicate Classified(inp: Inputs, walks: map<Address, Walked>, classes: seq<ByteClass>) {
    && |classes| == |inp.prg|
    && forall i :: 0 <= i < |classes| ==>
         classes[i] == if CodeByte(walks, i) then Code else if CoveredBy(inp.declared, i) then Data else Unknown
  }

  predicate Matches(f: DiscoveredFunction, a: Address, w: Walked) {
    && w.Walked? && f.addr == a && f.end == w.end
    && f.labels == w.state.labels && f.externals == w.state.externals && f.unresolved == w.state.unresolved
  }

  ghost predicate KindsMatch(functions: map<Address, DiscoveredFunction>, roots: RootMap) {
    forall a :: a in functions && a in roots ==> forall k :: k in functions[a].kinds <==> k in roots[a]
  }

  ghost predicate FunctionsMatch(walks: map<Address, Walked>, functions: map<Address, DiscoveredFunction>) {
    functions.Keys == walks.Keys && forall a :: a in functions ==> Matches(functions[a], a, walks[a])
  }

  datatype Analysis = Analysis(functions: map<Address, DiscoveredFunction>, roots: RootMap, classes: seq<ByteClass>)

  /** What discovery delivers. */
  ghost predicate Describes(inp: Inputs, r: Analysis, known: map<Address, set<Address>>, walks: map<Address, Walked>, order: seq<Address>) {
    && WalksMade(inp, known, walks)
    && FunctionsMatch(walks, r.functions)
    && r.functions.Keys == r.roots.Keys && KindsMatch(r.functions, r.roots)
    && RootsTaken(walks, r.roots)
    && InitialRecorded(inp, r.roots)
    && (forall a :: a in walks ==> inp.window.Contains(a) && known[a] <= r.roots.Keys)
    && KindsJustified(inp, walks, r.roots)
    && Justified(inp, walks, order) && KnownThen(inp, walks, order, known)
    && order == FirstSeen(Arrivals(inp, walks, order))
    && Classified(inp, walks, r.classes)
  }

  lemma WalkedMore(inp: Inputs, walks: map<Address, Walked>, order: seq<Address>, a: Address, w: Walked)
    requires a !in walks && w.Walked? && Justified(inp, walks, order)
    requires inp.Initial(a) || CalledBefore(walks, order, |order|, a)
    ensures Justified(inp, walks[a := w], order + [a])
    ensures forall b :: CalledBefore(walks, order, |order|, b) || Queued(w.state.roots, b)
              ==> CalledBefore(walks[a := w], order + [a], |order| + 1, b)
  {
    var walks', order' := walks[a := w], order + [a];
    forall b, n: nat | n <= |order| && CalledBefore(walks, order, n, b)
      ensures CalledBefore(walks', order', n, b)
    {
      var j :| 0 <= j < n && CallsTo(walks, order[j], b);
      assert order[j] in order && CallsTo(walks', order'[j], b);
    }
    forall b | Queued(w.state.roots, b)
      ensures CalledBefore(walks', order', |order| + 1, b)
    {
      assert CallsTo(walks', order'[|order|], b);
    }
    forall b | CalledBefore(walks', order', |order|, b)
      ensures CalledBefore(walks', order', |order| + 1, b)
    {
      var j :| 0 <= j < |order| && CallsTo(walks', order'[j], b);
    }
  }

  lemma CodeByteMore(walks: map<Address, Walked>, a: Address, w: Walked)
    requires a !in walks && w.Walked?
    ensures forall i: nat :: CodeByte(walks[a := w], i) <==> CodeByte(walks, i) || CoveredBy(w.state.code, i)
  {
    var walks' := walks[a := w];
    forall i: nat
      ensures CodeByte(walks', i) <==> CodeByte(walks, i) || CoveredBy(w.state.code, i)
    {
      assert walks'[a] == w;
      if CodeByte(walks, i) {
        var b :| b in walks && walks[b].Walked? && CoveredBy(walks[b].state.code, i);
        assert walks'[b] == walks[b];
      }
    }
  }

  lemma RootsStayTaken(walks: map<Address, Walked>, a: Address, w: Walked, roots: RootMap, roots': RootMap)
    requires RootsTaken(walks, roots) && Extends(roots', roots) && w.Walked?
    requires AllRecorded(roots', w.state.roots)
    ensures RootsTaken(walks[a := w], roots')
  {
    var walks' := walks[a := w];
    forall b | b in walks' && walks'[b].Walked?
      ensures AllRecorded(roots', walks'[b].state.roots)
    {
      if b != a {
        assert AllRecorded(roots, walks[b].state.roots);
      }
    }
  }

  /** A walk only proposes roots inside the window. */
  lemma WalkRootsInWindow(inp: Inputs, a: Address, known: set<Address>)
    requires inp.Walk(a, known).Walked?
    ensures forall b :: Queued(inp.Walk(a, known).state.roots, b) ==> inp.window.Contains(b)
  {
    var c := Context(inp.table, inp.prg, a, known, inp.window, inp.facts);
    var w := inp.Walk(a, known);
    WalkMeaning(c);
    forall b | Queued(w.state.roots, b)
      ensures inp.window.Contains(b)
    {
      var i :| 0 <= i < |w.state.roots| && w.state.roots[i].0 == b;
      var x := w.state.roots[i];
      assert x in w.state.roots;
      var k :| 0 <= k < |w.state.code| && FunctionWalk.Calls(c, w.state.code[k], x);
    }
  }

  /** `rest` holds every address of the window that has no walk yet. */
  ghost predicate Remaining(inp: Inputs, walks: map<Address, Walked>, rest: set<Address>) {
    forall a: Address :: inp.window.Contains(a) && a !in walks ==> a in rest
  }

  /** Functions and walks made so far, with the roots they had and have. */
  ghost predicate Made(inp: Inputs, roots: RootMap, functions: map<Address, DiscoveredFunction>,
                       known: map<Address, set<Address>>, walks: map<Address, Walked>) {
    && WalksMade(inp, known, walks)
    && FunctionsMatch(walks, functions)
    && RootsTaken(walks, roots)
    && forall a :: a in functions ==> a in roots && known[a] <= roots.Keys && functions[a].kinds <= roots[a]
  }

  /** Every root is discovered or waiting, and nothing else waits. */
  ghost predicate Waiting(roots: RootMap, queue: Queue, discovered: set<Address>) {
    && (forall a :: a in roots ==> a in discovered || Queued(queue, a))
    && (forall a :: Queued(queue, a) ==> a in roots)
  }

  ghost predicate InitialRecorded(inp: Inputs, roots: RootMap) {
    forall i :: 0 <= i < |inp.initial| && inp.Accepts(inp.initial[i].0) ==> Recorded(roots, inp.initial[i])
  }

  /** The state of the worklist between two pops. */
  ghost predicate Working(inp: Inputs, roots: RootMap, queue: Queue, functions: map<Address, DiscoveredFunction>,
                          known: map<Address, set<Address>>, walks: map<Address, Walked>, order: seq<Address>) {
    && Made(inp, roots, functions, known, walks)
    && RootsJustified(inp, walks, order, roots) && Justified(inp, walks, order)
    && KindsJustified(inp, walks, roots) && KnownThen(inp, walks, order, known)
    && Distinct(order) && InTurn(inp, walks, order, queue)
    && Waiting(roots, queue, functions.Keys)
    && InitialRecorded(inp, roots)
  }

  lemma PopKnown(inp: Inputs, roots: RootMap, queue: Queue, functions: map<Address, DiscoveredFunction>,
                 known: map<Address, set<Address>>, walks: map<Address, Walked>, order: seq<Address>)
    requires Working(inp, roots, queue, functions, known, walks, order) && queue != [] && queue[0].0 in functions
    ensures Working(inp, roots, queue[1..], functions, known, walks, order)
  {
    Popped(queue);
    KnownIsPassedOver(inp, walks, order, queue);
  }

  lemma HeadFirst(order: seq<Address>, queue: Queue)
    requires queue != []
    ensures order + Addresses(queue) == (order + [queue[0].0]) + Addresses(queue[1..])
  {
  }

  lemma KnownIsPassedOver(inp: Inputs, walks: map<Address, Walked>, order: seq<Address>, queue: Queue)
    requires InTurn(inp, walks, order, queue) && queue != [] && queue[0].0 in order
    ensures InTurn(inp, walks, order, queue[1..])
  {
    var a := queue[0].0;
    HeadFirst(order, queue);
    FirstSeenOne(order, a);
    assert FirstSeen(order + [a]) == FirstSeen(order);
    SameBehind(order + [a], order, Addresses(queue[1..]));
  }

  lemma {:induction false} ArrivalsStay(inp: Inputs, walks: map<Address, Walked>, order: seq<Address>, a: Address, w: Walked)
    requires a !in order
    ensures Arrivals(inp, walks[a := w], order) == Arrivals(inp, walks, order)
  {
    if order != [] {
      ArrivalsStay(inp, walks, order[..|order| - 1], a, w);
    }
  }

  /** Passing over what was already seen changes no first occurrence. */
  lemma {:induction false} UndiscoveredAreSeen(seen: seq<Address>, found: Queue, discovered: set<Address>)
    requires forall a :: a in discovered ==> a in seen
    ensures FirstSeen(seen + Addresses(Undiscovered(found, discovered))) == FirstSeen(seen + Addresses(found))
    decreases |found|
  {
    if found != [] {
      var front, x := found[..|found| - 1], found[|found| - 1];
      var kept := Undiscovered(front, discovered);
      UndiscoveredAreSeen(seen, front, discovered);
      assert found == front + [x];
      AddressesAppend(front, [x]);
      AddressesAppend(kept, [x]);
      assert seen + Addresses(found) == (seen + Addresses(front)) + [x.0];
      FirstSeenOne(seen + Addresses(front), x.0);
      if x.0 in discovered {
        assert x.0 in seen + Addresses(front);
        assert Undiscovered(found, discovered) == kept;
      } else {
        assert seen + Addresses(kept + [x]) == (seen + Addresses(kept)) + [x.0];
        SameBehind(seen + Addresses(front), seen + Addresses(kept), [x.0]);
      }
    }
  }

  lemma WalkedInTurn(inp: Inputs, walks: map<Address, Walked>, order: seq<Address>, queue: Queue, a: Address, w: Walked, discovered: set<Address>)
    requires InTurn(inp, walks, order, queue) && queue != [] && queue[0].0 == a && a !in order && w.Walked?
    requires forall b :: b in discovered ==> b in order
    ensures InTurn(inp, walks[a := w], order + [a], queue[1..] + Undiscovered(w.state.roots, discovered))
  {
    hide FirstSeen;
    var kept := Undiscovered(w.state.roots, discovered);
    var before := order + Addresses(queue);
    HeadFirst(order, queue);
    AddressesAppend(queue[1..], kept);
    assert (order + [a]) + Addresses(queue[1..] + kept) == before + Addresses(kept);
    UndiscoveredAreSeen(before, w.state.roots, discovered);
    ArrivalsStay(inp, walks, order, a, w);
    assert (order + [a])[..|order|] == order;
    SameBehind(before, Arrivals(inp, walks, order), Addresses(w.state.roots));
  }

  lemma Popped(queue: Queue)
    requires queue != []
    ensures forall b :: Queued(queue, b) <==> b == queue[0].0 || Queued(queue[1..], b)
  {
    QueuedAppendFront(queue[0], queue[1..]);
    assert [queue[0]] + queue[1..] == queue;
  }

  lemma QueuedAppendFront(first: (Address, RootKind), rest: Queue)
    ensures forall b :: Queued([first] + rest, b) <==> b == first.0 || Queued(rest, b)
  {
    var all := [first] + rest;
    forall b
      ensures Queued(all, b) <==> b == first.0 || Queued(rest, b)
    {
      assert all[0] == first;
      if Queued(rest, b) {
        var i :| 0 <= i < |rest| && rest[i].0 == b;
        assert all[i + 1] == rest[i];
      }
      if Queued(all, b) && b != first.0 {
        var i :| 0 <= i < |all| && all[i].0 == b;
        assert all[i] == rest[i - 1];
      }
    }
  }

  lemma RootsStayJustified(inp: Inputs, walks: map<Address, Walked>, order: seq<Address>, roots: RootMap, a: Address, w: Walked, roots': RootMap)
    requires RootsJustified(inp, walks, order, roots) && Justified(inp, walks, order) && a in roots && a !in walks && w.Walked?
    requires forall b :: b in roots' ==> b in roots || Queued(w.state.roots, b)
    requires forall b :: Queued(w.state.roots, b) ==> inp.window.Contains(b)
    ensures RootsJustified(inp, walks[a := w], order + [a], roots') && Justified(inp, walks[a := w], order + [a])
  {
    WalkedMore(inp, walks, order, a, w);
  }

  lemma MakeOne(inp: Inputs, roots: RootMap, functions: map<Address, DiscoveredFunction>,
                known: map<Address, set<Address>>, walks: map<Address, Walked>,
                a: Address, w: Walked, f: DiscoveredFunction, roots': RootMap)
    requires Made(inp, roots, functions, known, walks) && a !in functions && a in roots
    requires w.Walked? && w == inp.Walk(a, roots.Keys)
    requires Extends(roots', roots) && AllRecorded(roots', w.state.roots)
    requires Matches(f, a, w) && f.kinds <= roots'[a]
    ensures Made(inp, roots', functions[a := f], known[a := roots.Keys], walks[a := w])
  {
    RootsStayTaken(walks, a, w, roots, roots');
    forall b | b in functions
      ensures b in roots' && known[b] <= roots'.Keys && functions[b].kinds <= roots'[b]
    {
      assert b in roots && roots[b] <= roots'[b];
      PrefixTransitive(functions[b].kinds, roots[b], roots'[b]);
    }
  }

  lemma PrefixTransitive<T>(a: seq<T>, b: seq<T>, c: seq<T>)
    requires a <= b && b <= c
    ensures a <= c
  {
  }

  lemma WaitingMore(roots: RootMap, queue: Queue, discovered: set<Address>, found: Queue, roots': RootMap, queue': Queue)
    requires Waiting(roots, queue, discovered) && queue != []
    requires forall b :: b in roots' <==> b in roots || Queued(found, b)
    requires forall b :: Queued(queue', b) <==> Queued(queue[1..], b) || (Queued(found, b) && b !in discovered)
    ensures Waiting(roots', queue', discovered + {queue[0].0})
  {
    Popped(queue);
  }

  lemma InitialStays(inp: Inputs, roots: RootMap, roots': RootMap)
    requires InitialRecorded(inp, roots) && Extends(roots', roots)
    ensures InitialRecorded(inp, roots')
  {
    forall i | 0 <= i < |inp.initial| && inp.Accepts(inp.initial[i].0)
      ensures Recorded(roots', inp.initial[i])
    {
      assert Recorded(roots, inp.initial[i]);
    }
  }

  lemma KindsStayJustified(inp: Inputs, walks: map<Address, Walked>, roots: RootMap, a: Address, w: Walked, roots': RootMap)
    requires KindsJustified(inp, walks, roots) && a !in walks && w.Walked?
    requires forall x :: Recorded(roots', x) ==> Recorded(roots, x) || x in w.state.roots
    ensures KindsJustified(inp, walks[a := w], roots')
  {
    var walks' := walks[a := w];
    forall x | Recorded(roots', x)
      ensures inp.Given(x) || exists p :: FoundBy(walks', p, x)
    {
      if x in w.state.roots {
        assert FoundBy(walks', a, x);
      } else if !inp.Given(x) {
        var p :| FoundBy(walks, p, x);
        assert FoundBy(walks', p, x);
      }
    }
  }

  lemma CalledBeforeStays(walks: map<Address, Walked>, order: seq<Address>, n: nat, a: Address, w: Walked, b: Address)
    requires a !in walks && n <= |order| && forall p :: p in order ==> p in walks
    ensures CalledBefore(walks[a := w], order + [a], n, b) <==> CalledBefore(walks, order, n, b)
  {
    var walks', order' := walks[a := w], order + [a];
    forall j | 0 <= j < n
      ensures CallsTo(walks', order'[j], b) <==> CallsTo(walks, order[j], b)
    {
      assert order[j] in order;
    }
    if CalledBefore(walks, order, n, b) {
      var j :| 0 <= j < n && CallsTo(walks, order[j], b);
      assert CallsTo(walks', order'[j], b);
    }
    if CalledBefore(walks', order', n, b) {
      var j :| 0 <= j < n && CallsTo(walks', order'[j], b);
      assert CallsTo(walks, order[j], b);
    }
  }

  /** The roots are the initial ones and those found by the walks made. */
  lemma RootsAreKnown(inp: Inputs, walks: map<Address, Walked>, order: seq<Address>, roots: RootMap, b: Address)
    requires RootsJustified(inp, walks, order, roots) && RootsTaken(walks, roots) && InitialRecorded(inp, roots)
    ensures b in roots <==> inp.Initial(b) || CalledBefore(walks, order, |order|, b)
  {
    if inp.Initial(b) {
      var i :| 0 <= i < |inp.initial| && inp.initial[i].0 == b;
      assert Recorded(roots, inp.initial[i]);
    }
    if CalledBefore(walks, order, |order|, b) {
      var j :| 0 <= j < |order| && CallsTo(walks, order[j], b);
      var found := walks[order[j]].state.roots;
      assert AllRecorded(roots, found);
      var i :| 0 <= i < |found| && found[i].0 == b;
      assert Recorded(roots, found[i]);
    }
  }

  lemma KnownMore(inp: Inputs, roots: RootMap, walks: map<Address, Walked>, order: seq<Address>, known: map<Address, set<Address>>,
                  a: Address, w: Walked)
    requires KnownThen(inp, walks, order, known) && a !in walks && (forall p :: p in order ==> p in walks)
    requires RootsJustified(inp, walks, order, roots) && RootsTaken(walks, roots) && InitialRecorded(inp, roots)
    ensures KnownThen(inp, walks[a := w], order + [a], known[a := roots.Keys])
  {
    var walks', order', known' := walks[a := w], order + [a], known[a := roots.Keys];
    forall n | 0 <= n < |order'|
      ensures KnownAt(inp, walks', order', n, known')
    {
      if n < |order| {
        assert order[n] in order && KnownAt(inp, walks, order, n, known);
      }
      forall b
        ensures b in known'[order'[n]] <==> inp.Initial(b) || CalledBefore(walks', order', n, b)
      {
        CalledBeforeStays(walks, order, n, a, w, b);
        RootsAreKnown(inp, walks, order, roots, b);
      }
    }
  }

  lemma DistinctMore(order: seq<Address>, a: Address)
    requires Distinct(order) && a !in order
    ensures Distinct(order + [a])
  {
  }

  lemma PopNew(inp: Inputs, roots: RootMap, queue: Queue, functions: map<Address, DiscoveredFunction>,
               known: map<Address, set<Address>>, walks: map<Address, Walked>, order: seq<Address>,
               a: Address, w: Walked, f: DiscoveredFunction, roots': RootMap, queue': Queue)
    requires Working(inp, roots, queue, functions, known, walks, order) && queue != [] && queue[0].0 == a && a !in functions
    requires a in roots && w.Walked? && w == inp.Walk(a, roots.Keys)
    requires Extends(roots', roots) && AllRecorded(roots', w.state.roots)
    requires Matches(f, a, w) && f.kinds <= roots'[a]
    requires forall b :: b in roots' <==> b in roots || Queued(w.state.roots, b)
    requires forall b :: Queued(queue', b) <==> Queued(queue[1..], b) || (Queued(w.state.roots, b) && b !in functions.Keys)
    requires forall x :: Recorded(roots', x) ==> Recorded(roots, x) || x in w.state.roots
    requires queue' == queue[1..] + Undiscovered(w.state.roots, functions.Keys)
    ensures Working(inp, roots', queue', functions[a := f], known[a := roots.Keys], walks[a := w], order + [a])
  {
    hide InTurn, KnownThen, KindsJustified, CalledBefore, RootsJustified, Undiscovered, Extends, AllRecorded, InitialRecorded, Distinct, Waiting, WalksMade, RootsTaken, Matches, Queued;
    WalkRootsInWindow(inp, a, roots.Keys);
    RootsStayJustified(inp, walks, order, roots, a, w, roots');
    MakeOne(inp, roots, functions, known, walks, a, w, f, roots');
    WaitingMore(roots, queue, functions.Keys, w.state.roots, roots', queue');
    assert functions[a := f].Keys == functions.Keys + {a};
    InitialStays(inp, roots, roots');
    KindsStayJustified(inp, walks, roots, a, w, roots');
    KnownMore(inp, roots, walks, order, known, a, w);
    WalkedInTurn(inp, walks, order, queue, a, w, functions.Keys);
    DistinctMore(order, a);
  }

  method MarkWalk(inp: Inputs, classes: ClassMap, ghost walks: map<Address, Walked>, a: Address, w: Walked)
    requires Classified(inp, walks, classes.bytes[..]) && a !in walks && w.Walked?
    modifies classes.bytes
    ensures Classified(inp, walks[a := w], classes.bytes[..])
  {
    classes.MarkAllCode(w.state.code);
    CodeByteMore(walks, a, w);
  }

  method Start(inp: Inputs) returns (classes: ClassMap, roots: RootMap, queue: Queue)
    ensures fresh(classes) && fresh(classes.bytes)
    ensures Classified(inp, map[], classes.bytes[..])
    ensures Working(inp, roots, queue, map[], map[], map[], [])
  {
    classes := new ClassMap(|inp.prg|);
    classes.MarkAllData(inp.declared);
    roots := InitialRoots(inp);
    queue := InitialQueue(roots);
    StartsWorking(inp, roots, queue);
  }

  lemma StartsWorking(inp: Inputs, roots: RootMap, queue: Queue)
    requires forall a :: a in roots <==> inp.Initial(a)
    requires InitialRecorded(inp, roots) && forall x :: Recorded(roots, x) ==> inp.Given(x)
    requires forall a :: Queued(queue, a) <==> a in roots
    requires FirstSeen(Addresses(queue)) == Ascending(roots.Keys, 0)
    ensures Working(inp, roots, queue, map[], map[], map[], [])
  {
    var initial := Ascending(InitialAddresses(inp), 0);
    assert roots.Keys == InitialAddresses(inp);
    AscendingLists(InitialAddresses(inp));
    DistinctIsFirstSeen(initial);
    assert [] + Addresses(queue) == Addresses(queue);
  }

  /** Whether an ending instruction reaches $FFFF does not depend on the function walked. */
  lemma NoWalkIsEndless(inp: Inputs)
    requires inp.NothingEndsAtTop()
    ensures !inp.SomeWalkIsEndless()
  {
    forall a, known | inp.window.Contains(a)
      ensures inp.Walk(a, known).Walked?
    {
      var c := Context(inp.table, inp.prg, a, known, inp.window, inp.facts);
      var any := Context(inp.table, inp.prg, inp.window.start, {}, inp.window, inp.facts);
      forall at | inp.window.Contains(at)
        ensures !EndsAtTop(c, at)
      {
        assert !EndsAtTop(any, at);
        assert c.Decoded(at) == any.Decoded(at);
      }
      NothingAtTopNeverRestarts(c);
    }
  }

  /** One pop of an address not yet discovered: walk it, mark its code and record what it calls. */
  method Visit(inp: Inputs, classes: ClassMap, roots: RootMap, queue: Queue, functions: map<Address, DiscoveredFunction>, a: Address,
               ghost known: map<Address, set<Address>>, ghost walks: map<Address, Walked>, ghost order: seq<Address>)
    returns (w: Walked, roots': RootMap, queue': Queue, functions': map<Address, DiscoveredFunction>)
    requires Working(inp, roots, queue, functions, known, walks, order) && queue != [] && queue[0].0 == a && a !in functions
    requires Classified(inp, walks, classes.bytes[..])
    modifies classes.bytes
    ensures w.Walked? ==> Working(inp, roots', queue', functions', known[a := roots.Keys], walks[a := w], order + [a])
    ensures w.Walked? ==> Classified(inp, walks[a := w], classes.bytes[..])
    ensures w.Endless? ==> inp.SomeWalkIsEndless()
  {
    roots', queue', functions' := roots, queue, functions;
    w := Walk(Context(inp.table, inp.prg, a, roots.Keys, inp.window, inp.facts));
    assert Queued(queue, a);
    assert w == inp.Walk(a, roots.Keys);
    if w.Walked? {
      MarkWalk(inp, classes, walks, a, w);
      roots', queue' := Enqueue(roots, queue[1..], functions.Keys, w.state.roots);
      var f := DiscoveredFunction(a, w.end, roots'[a], w.state.labels, w.state.externals, w.state.unresolved);
      functions' := functions[a := f];
      PopNew(inp, roots, queue, functions, known, walks, order, a, w, f, roots', queue');
    }
  }

  lemma WorkDone(inp: Inputs, roots: RootMap, functions: map<Address, DiscoveredFunction>, classes: seq<ByteClass>,
                 known: map<Address, set<Address>>, walks: map<Address, Walked>, order: seq<Address>)
    requires WalksMade(inp, known, walks) && FunctionsMatch(walks, functions) && RootsTaken(walks, roots)
    requires functions.Keys == roots.Keys && KindsMatch(functions, roots) && InitialRecorded(inp, roots)
    requires RootsJustified(inp, walks, order, roots) && Justified(inp, walks, order)
    requires KindsJustified(inp, walks, roots) && KnownThen(inp, walks, order, known)
    requires Distinct(order) && InTurn(inp, walks, order, [])
    requires forall a :: a in walks ==> known[a] <= roots.Keys
    requires Classified(inp, walks, classes)
    ensures Describes(inp, Analysis(functions, roots, classes), known, walks, order)
  {
    assert order + Addresses([]) == order;
    DistinctIsFirstSeen(order);
  }

  /** Adds the kinds in `all` that are not yet listed. */
  method AddMissing(kinds: seq<RootKind>, all: seq<RootKind>) returns (r: seq<RootKind>)
    ensures forall k :: k in r <==> k in kinds || k in all
  {
    r := kinds;
    for n := 0 to |all|
      invariant forall k :: k in r <==> k in kinds || k in all[..n]
    {
      assert all[..n + 1] == all[..n] + [all[n]];
      if all[n] !in r {
        r := r + [all[n]];
      }
    }
    assert all[..|all|] == all;
  }

  lemma KindsOfMade(inp: Inputs, roots: RootMap, functions: map<Address, DiscoveredFunction>,
                    known: map<Address, set<Address>>, walks: map<Address, Walked>, a: Address, k: RootKind)
    requires Made(inp, roots, functions, known, walks) && a in functions && k in functions[a].kinds
    ensures k in roots[a]
  {
    assert functions[a].kinds <= roots[a];
  }

  predicate SameButKinds(f: DiscoveredFunction, g: DiscoveredFunction) {
    f == g.(kinds := f.kinds)
  }

  /** Roots found after a function was walked may have added kinds to it. */
  method MergeKinds(functions: map<Address, DiscoveredFunction>, roots: RootMap) returns (merged: map<Address, DiscoveredFunction>)
    requires functions.Keys == roots.Keys
    requires forall a :: a in functions ==> forall k :: k in functions[a].kinds ==> k in roots[a]
    ensures merged.Keys == functions.Keys && KindsMatch(merged, roots)
    ensures forall a :: a in merged ==> SameButKinds(merged[a], functions[a])
  {
    merged := functions;
    var addresses := Ascending(roots.Keys, 0);
    AscendingLists(roots.Keys);
    for n := 0 to |addresses|
      invariant merged.Keys == functions.Keys
      invariant forall a :: a in merged ==> SameButKinds(merged[a], functions[a])
      invariant forall a :: a in merged ==> forall k :: k in merged[a].kinds ==> k in roots[a]
      invariant forall i :: 0 <= i < n ==> forall k :: k in roots[addresses[i]] ==> k in merged[addresses[i]].kinds
    {
      var a := addresses[n];
      assert a in addresses;
      var kinds := AddMissing(merged[a].kinds, roots[a]);
      merged := merged[a := merged[a].(kinds := kinds)];
    }
  }

  lemma MergedStillWorks(inp: Inputs, roots: RootMap, functions: map<Address, DiscoveredFunction>, merged: map<Address, DiscoveredFunction>,
                         known: map<Address, set<Address>>, walks: map<Address, Walked>)
    requires Made(inp, roots, functions, known, walks)
    requires merged.Keys == functions.Keys && forall a :: a in merged ==> SameButKinds(merged[a], functions[a])
    ensures FunctionsMatch(walks, merged)
  {
    forall a | a in merged
      ensures Matches(merged[a], a, walks[a])
    {
      assert Matches(functions[a], a, walks[a]) && SameButKinds(merged[a], functions[a]);
    }
  }

  /** Pops one queue entry; either an address was discovered, or the queue got shorter. */
  method Pop(inp: Inputs, classes: ClassMap, roots: RootMap, queue: Queue, functions: map<Address, DiscoveredFunction>,
             ghost known: map<Address, set<Address>>, ghost walks: map<Address, Walked>, ghost order: seq<Address>, ghost rest: set<Address>)
    returns (ok: bool, roots': RootMap, queue': Queue, functions': map<Address, DiscoveredFunction>,
             ghost known': map<Address, set<Address>>, ghost walks': map<Address, Walked>, ghost order': seq<Address>, ghost rest': set<Address>)
    requires Working(inp, roots, queue, functions, known, walks, order) && queue != [] && Remaining(inp, walks, rest)
    requires Classified(inp, walks, classes.bytes[..])
    modifies classes.bytes
    ensures ok ==> Working(inp, roots', queue', functions', known', walks', order') && Classified(inp, walks', classes.bytes[..])
    ensures !ok ==> inp.SomeWalkIsEndless()
    ensures ok ==> Remaining(inp, walks', rest') && (|rest'| < |rest| || (rest' == rest && |queue'| < |queue|))
  {
    roots', queue', functions', known', walks', order', rest' := roots, queue[1..], functions, known, walks, order, rest;
    ok := true;
    var a := queue[0].0;
    if a in functions {
      PopKnown(inp, roots, queue, functions, known, walks, order);
    } else {
      var w;
      w, roots', queue', functions' := Visit(inp, classes, roots, queue, functions, a, known, walks, order);
      ok := w.Walked?;
      assert Queued(queue, a) && inp.window.Contains(a);
      rest' := rest - {a};
      known', walks', order' := known[a := roots.Keys], walks[a := w], order + [a];
    }
  }

  /** `analyze_in_window`; `None` only when a walk never ends. */
  method Analyze(inp: Inputs)
    returns (r: Option<Analysis>, ghost known: map<Address, set<Address>>, ghost walks: map<Address, Walked>, ghost order: seq<Address>)
    ensures r.Some? ==> Describes(inp, r.value, known, walks, order)
    ensures r.None? ==> inp.SomeWalkIsEndless()
    ensures inp.NothingEndsAtTop() ==> r.Some?
  {
    if inp.NothingEndsAtTop() { NoWalkIsEndless(inp); }
    var classes, roots, queue := Start(inp);
    var functions: map<Address, DiscoveredFunction> := map[];
    known, walks, order := map[], map[], [];
    ghost var rest: set<Address> := set a: Address | inp.window.Contains(a);
    while queue != []
      invariant fresh(classes) && fresh(classes.bytes)
      invariant Working(inp, roots, queue, functions, known, walks, order)
      invariant Classified(inp, walks, classes.bytes[..])
      invariant Remaining(inp, walks, rest)
      decreases |rest|, |queue|
    {
      var ok;
      ok, roots, queue, functions, known, walks, order, rest :=
        Pop(inp, classes, roots, queue, functions, known, walks, order, rest);
      if !ok {
        return None, known, walks, order;
      }
    }
    forall a, k | a in functions && k in functions[a].kinds
      ensures a in roots && k in roots[a]
    {
      KindsOfMade(inp, roots, functions, known, walks, a, k);
    }
    var merged := MergeKinds(functions, roots);
    MergedStillWorks(inp, roots, functions, merged, known, walks);
    WorkDone(inp, roots, merged, classes.bytes[..], known, walks, order);
    r := Some(Analysis(merged, roots, classes.bytes[..]));
  }
}
