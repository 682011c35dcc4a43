/**
 Rejecting mapped routines that may change their own mapping: a call-graph fixpoint,
 proved to be reachability of a possible mapper write.
 */
module RemapSafety {
  import opened Bytes
  import opened Ir
  import opened Lifter

  /**
   The operations the check takes for a possible mapper write. Computed targets may enter a
   writer even when no static call names it; of the stores only STA counts.
   */
  predicate MayRemap(op: Op) {
    || op.MapperWrite? || op.RtsDispatch? || op.JmpIndirect? || op.JsrUnknown?
    || (op.StoreMem? && op.store.Sta?
        && (op.region.PrgRom? || op.region.MapperSpace? || op.addr.IndirectPtrX? || op.addr.IndirectPtrY?))
  }

  /** Bank-mapped routines carry their bank in the name. */
  predicate BankLabel(l: string) {
    |l| >= 3 && l[0] == 'L' && l[1] == '_' && l[2] == 'b'
  }

  lemma BankLabelIs(l: string)
    ensures BankLabel(l) <==> exists rest: string :: l == "L_b" + rest
  {
    if BankLabel(l) {
      assert l == "L_b" + l[3..];
    }
  }

  datatype Routine = Routine(name: string, entry: Address, ops: seq<Op>, externalCalls: seq<string>)
  {
    predicate BankMapped() {
      BankLabel(name)
    }

    function AutoLabel(): string {
      if BankMapped() then name else "L_" + Hex4(entry)
    }

    predicate DirectWriter() {
      exists i :: 0 <= i < |ops| && MayRemap(ops[i])
    }

    predicate CallsInto(labels: set<string>) {
      exists i :: 0 <= i < |externalCalls| && externalCalls[i] in labels
    }
  }

  /** A routine writes directly when one of its operations may. */
  lemma DirectWriterIff(r: Routine)
    ensures r.DirectWriter() <==> exists op :: op in r.ops && MayRemap(op)
  {
    if op :| op in r.ops && MayRemap(op) {
      var i :| 0 <= i < |r.ops| && r.ops[i] == op;
    }
  }

  /** A chain of calls, each by label, that ends in a routine with a possible mapper write. */
  predicate WritePath(routines: seq<Routine>, path: seq<nat>) {
    && path != []
    && (forall i :: 0 <= i < |path| ==> path[i] < |routines|)
    && routines[path[|path| - 1]].DirectWriter()
    && (forall i :: 0 <= i < |path| - 1 ==> CallStep(routines, path, i))
  }

  predicate CallStep(routines: seq<Routine>, path: seq<nat>, i: nat)
    requires i + 1 < |path| && path[i] < |routines| && path[i + 1] < |routines|
  {
    routines[path[i + 1]].AutoLabel() in routines[path[i]].externalCalls
  }

  /** Each member is the label of some routine from which a possible mapper write can be reached. */
  ghost predicate Sound(routines: seq<Routine>, writers: set<string>) {
    forall l :: l in writers ==> Reaches(routines, l)
  }

  ghost predicate Reaches(routines: seq<Routine>, l: string) {
    exists path: seq<nat> :: WritePath(routines, path) && routines[path[0]].AutoLabel() == l
  }

  lemma DirectReaches(routines: seq<Routine>, k: nat)
    requires k < |routines| && routines[k].DirectWriter()
    ensures Reaches(routines, routines[k].AutoLabel())
  {
    var path: seq<nat> := [k];
    assert WritePath(routines, path);
  }

  lemma CallerReaches(routines: seq<Routine>, k: nat, writers: set<string>)
    requires k < |routines| && Sound(routines, writers) && routines[k].CallsInto(writers)
    ensures Reaches(routines, routines[k].AutoLabel())
  {
    var i :| 0 <= i < |routines[k].externalCalls| && routines[k].externalCalls[i] in writers;
    var target := routines[k].externalCalls[i];
    assert Reaches(routines, target);
    var rest: seq<nat> :| WritePath(routines, rest) && routines[rest[0]].AutoLabel() == target;
    LongerPath(routines, k, rest);
  }

  lemma LongerPath(routines: seq<Routine>, k: nat, rest: seq<nat>)
    requires k < |routines| && WritePath(routines, rest)
    requires routines[rest[0]].AutoLabel() in routines[k].externalCalls
    ensures WritePath(routines, [k] + rest)
    ensures Reaches(routines, routines[k].AutoLabel())
  {
    var path := [k] + rest;
    forall j | 0 <= j < |path| - 1
      ensures CallStep(routines, path, j)
    {
      if j > 0 { assert CallStep(routines, rest, j - 1); }
    }
  }

  /** Contains the direct writers and every caller of a member. */
  ghost predicate Closed(routines: seq<Routine>, writers: set<string>) {
    forall k :: 0 <= k < |routines| && (routines[k].DirectWriter() || routines[k].CallsInto(writers)) ==> routines[k].AutoLabel() in writers
  }

  /** A closed set holds the label at the head of every write path. */
  lemma {:induction false} ClosedHoldsPaths(routines: seq<Routine>, writers: set<string>, path: seq<nat>)
    requires Closed(routines, writers) && WritePath(routines, path)
    ensures routines[path[0]].AutoLabel() in writers
    decreases |path|
  {
    if |path| > 1 {
      var rest := path[1..];
      forall j | 0 <= j < |rest| - 1
        ensures CallStep(routines, rest, j)
      {
        assert CallStep(routines, path, j + 1);
      }
      ClosedHoldsPaths(routines, writers, rest);
      assert CallStep(routines, path, 0);
      var i :| 0 <= i < |routines[path[0]].externalCalls| && routines[path[0]].externalCalls[i] == routines[path[1]].AutoLabel();
      assert routines[path[0]].CallsInto(writers);
    }
  }

  function Labels(routines: seq<Routine>): set<string> {
    set k | 0 <= k < |routines| :: routines[k].AutoLabel()
  }

  method DirectWriters(routines: seq<Routine>) returns (writers: set<string>)
    ensures Sound(routines, writers) && writers <= Labels(routines)
    ensures forall k :: 0 <= k < |routines| && routines[k].DirectWriter() ==> routines[k].AutoLabel() in writers
  {
    writers := {};
    for k := 0 to |routines|
      invariant Sound(routines, writers) && writers <= Labels(routines)
      invariant forall j :: 0 <= j < k && routines[j].DirectWriter() ==> routines[j].AutoLabel() in writers
    {
      if routines[k].DirectWriter() {
        DirectReaches(routines, k);
        writers := writers + {routines[k].AutoLabel()};
      }
    }
  }

  lemma SoundWith(routines: seq<Routine>, writers: set<string>, k: nat, l: string)
    requires Sound(routines, writers) && writers <= Labels(routines)
    requires k < |routines| && l == routines[k].AutoLabel() && Reaches(routines, l)
    ensures Sound(routines, writers + {l}) && writers + {l} <= Labels(routines)
  {
  }

  predicate Settled(r: Routine, writers: set<string>) {
    r.CallsInto(writers) ==> r.AutoLabel() in writers
  }

  /** The first `k` routines have been passed over; `grown` is a member they added. */
  ghost predicate Passed(routines: seq<Routine>, start: set<string>, writers: set<string>, grown: Option<string>, k: nat)
    requires k <= |routines|
  {
    && start <= writers
    && (grown.Some? ==> grown.value in writers && grown.value !in start)
    && (grown.None? ==> writers == start && forall j :: 0 <= j < k ==> Settled(routines[j], start))
  }

  lemma PassOne(routines: seq<Routine>, start: set<string>, writers: set<string>, grown: Option<string>, k: nat, writers': set<string>)
    returns (grown': Option<string>)
    requires k < |routines| && Passed(routines, start, writers, grown, k)
    requires writers' == if routines[k].CallsInto(writers) then writers + {routines[k].AutoLabel()} else writers
    ensures Passed(routines, start, writers', grown', k + 1)
  {
    var l := routines[k].AutoLabel();
    grown' := if grown.None? && routines[k].CallsInto(writers) && l !in writers then Some(l) else grown;
    assert l in writers ==> writers + {l} == writers;
  }

  /** One pass over all routines, members added as they are found. */
  method AddCallers(routines: seq<Routine>, writers0: set<string>) returns (writers: set<string>)
    requires Sound(routines, writers0) && writers0 <= Labels(routines)
    ensures Sound(routines, writers) && writers0 <= writers <= Labels(routines)
    ensures writers == writers0 ==>
              forall k :: 0 <= k < |routines| ==> Settled(routines[k], writers)
  {
    writers := writers0;
    ghost var grown: Option<string> := None;
    for k := 0 to |routines|
      invariant Sound(routines, writers) && writers <= Labels(routines)
      invariant Passed(routines, writers0, writers, grown, k)
    {
      ghost var before := writers;
      if routines[k].CallsInto(writers) {
        CallerReaches(routines, k, writers);
        SoundWith(routines, writers, k, routines[k].AutoLabel());
        writers := writers + {routines[k].AutoLabel()};
      }
      grown := PassOne(routines, writers0, before, grown, k, writers);
    }
  }

  /** The writer loop: it stops, at the least set holding the direct writers and closed under calls. */
  method Writers(routines: seq<Routine>) returns (writers: set<string>)
    ensures Sound(routines, writers) && Closed(routines, writers)
  {
    writers := DirectWriters(routines);
    while true
      invariant Sound(routines, writers) && writers <= Labels(routines)
      invariant forall k :: 0 <= k < |routines| && routines[k].DirectWriter() ==> routines[k].AutoLabel() in writers
      decreases |Labels(routines) - writers|
    {
      var old_len := |writers|;
      var more := AddCallers(routines, writers);
      Subsets(writers, more);
      if |more| == old_len {
        assert forall k :: 0 <= k < |routines| ==> Settled(routines[k], writers);
        return;
      }
      Shrinks(Labels(routines), writers, more);
      writers := more;
    }
  }

  lemma Subsets<T>(a: set<T>, b: set<T>)
    requires a <= b
    ensures |a| == |b| <==> a == b
    ensures |a| <= |b|
  {
    assert b == a + (b - a);
    if |a| == |b| {
      assert |b - a| == 0;
    }
  }

  lemma Shrinks<T>(all: set<T>, a: set<T>, b: set<T>)
    requires a <= b <= all && a != b
    ensures |all - b| < |all - a|
  {
    assert all - a == (all - b) + (b - a);
    Subsets(a, b);
    assert b == a + (b - a);
  }

  /** Two sets that are sound and closed are equal: the result does not depend on the order of the passes. */
  lemma SoundAndClosedIsLeast(routines: seq<Routine>, writers: set<string>, closed: set<string>)
    requires Sound(routines, writers) && Closed(routines, closed)
    ensures writers <= closed
  {
    forall l | l in writers
      ensures l in closed
    {
      assert Reaches(routines, l);
      var path: seq<nat> :| WritePath(routines, path) && routines[path[0]].AutoLabel() == l;
      ClosedHoldsPaths(routines, closed, path);
    }
  }

  /** An address label has an upper-case digit where a bank label has its `b`. */
  lemma BankLabelIsMapped(r: Routine)
    ensures BankLabel(r.AutoLabel()) ==> r.BankMapped() && r.name == r.AutoLabel()
  {
    if !r.BankMapped() {
      var d := r.entry / 4096;
      assert r.AutoLabel()[2] == HexDigit(d);
    }
  }

  method FindMapped(routines: seq<Routine>, writers: set<string>) returns (found: Option<Routine>)
    ensures found.Some? ==> found.value in routines && found.value.BankMapped() && found.value.name in writers
    ensures found.None? ==> forall j :: 0 <= j < |routines| && routines[j].BankMapped() ==> routines[j].name !in writers
  {
    for k := 0 to |routines|
      invariant forall j :: 0 <= j < k && routines[j].BankMapped() ==> routines[j].name !in writers
    {
      if routines[k].BankMapped() && routines[k].name in writers {
        return Some(routines[k]);
      }
    }
    found := None;
  }

  /** Some bank-mapped routine has a call path to a possible mapper write. */
  ghost predicate MappedWriter(routines: seq<Routine>) {
    exists path: seq<nat> :: WritePath(routines, path) && routines[path[0]].BankMapped()
  }

  /** `check_mmc3_mapping_continuations`: rejects exactly when a bank-mapped routine has a path to a possible mapper write. */
  method CheckMappingContinuations(routines: seq<Routine>) returns (rejected: Option<Routine>)
    ensures rejected.Some? ==> rejected.value in routines && rejected.value.BankMapped() && Reaches(routines, rejected.value.name)
    ensures rejected.Some? <==> MappedWriter(routines)
  {
    var writers := Writers(routines);
    rejected := FindMapped(routines, writers);
    if rejected.Some? {
      MemberIsWriter(routines, writers, rejected.value.name);
    } else {
      NonMembersAreNot(routines, writers);
    }
  }

  lemma MemberIsWriter(routines: seq<Routine>, writers: set<string>, l: string)
    requires Sound(routines, writers) && l in writers && BankLabel(l)
    ensures Reaches(routines, l) && MappedWriter(routines)
  {
    assert Reaches(routines, l);
    var path: seq<nat> :| WritePath(routines, path) && routines[path[0]].AutoLabel() == l;
    BankLabelIsMapped(routines[path[0]]);
  }

  lemma NonMembersAreNot(routines: seq<Routine>, writers: set<string>)
    requires Closed(routines, writers)
    requires forall j :: 0 <= j < |routines| && routines[j].BankMapped() ==> routines[j].name !in writers
    ensures !MappedWriter(routines)
  {
    forall path: seq<nat> | WritePath(routines, path)
      ensures !routines[path[0]].BankMapped()
    {
      ClosedHoldsPaths(routines, writers, path);
    }
  }
}
