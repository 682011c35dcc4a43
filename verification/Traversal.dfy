/**
 The ordered-traversal acceptor: phases recognised from observations, an eight-bit tick
 counter accumulated with one tolerated reset, and two confirmed coordinate windows.
 The boot route is an input; logs, inputs to the core and captures are not modelled.
 */
module CounterDelta {
  import opened Bytes

  datatype RouteError =
    | Trap
    | TickDiscontinuity(previous: Byte, current: Byte)
    | WrongStart
    | InvalidTransition
    | Stalled
    | MissingMovement
    | EarlyDiagnostic
    | MissingReset
    | DuplicateReset
    | NotAlive
    | TickLimit
    | UnexpectedState

  /** `(current - previous) & 255`. */
  function WrappedDelta(previous: Byte, current: Byte): Byte {
    (current - previous) % 256
  }

  function Delta(previous: Byte, current: Byte, maximum: nat): Result<nat, RouteError> {
    if WrappedDelta(previous, current) > maximum then Err(TickDiscontinuity(previous, current))
    else Ok(WrappedDelta(previous, current))
  }

  /** A true advance of at most `maximum` ticks is measured exactly, across the wrap. */
  lemma DeltaIsExact(previous: Byte, advance: nat, maximum: nat)
    requires advance <= maximum <= 255
    ensures Delta(previous, (previous + advance) % 256, maximum) == Ok(advance)
  {
  }
}

module PhaseMembership {
  import opened Bytes

  type Observation = map<string, int>

  /** Every frame carries every observation; an absent one would read as zero. */
  function At(state: Observation, key: string): int {
    if key in state then state[key] else 0
  }

  function ByteAt(state: Observation, key: string): Byte {
    At(state, key) % 256
  }

  function Abs(x: int): nat {
    if x < 0 then -x else x
  }

  /** The listed values of each constrained observation. */
  type Allowed = map<string, seq<int>>

  predicate Member(allowed: Allowed, state: Observation) {
    forall key :: key in allowed ==> At(state, key) in allowed[key]
  }

  predicate Disjoint(s: seq<int>, t: seq<int>) {
    forall i :: 0 <= i < |s| ==> s[i] !in t
  }

  /** Some observation both phases constrain keeps them apart. */
  predicate Apart(a: Allowed, b: Allowed) {
    exists key :: key in a && key in b && Disjoint(a[key], b[key])
  }

  ghost predicate Unambiguous(phases: seq<Allowed>) {
    forall i, j :: 0 <= i < j < |phases| ==> Apart(phases[i], phases[j])
  }

  /** The validator's pairwise test. */
  method CheckDisjoint(phases: seq<Allowed>) returns (ok: bool)
    ensures ok <==> Unambiguous(phases)
  {
    for i := 0 to |phases|
      invariant forall a, b :: 0 <= a < i && a < b < |phases| ==> Apart(phases[a], phases[b])
    {
      for j := i + 1 to |phases|
        invariant forall b :: i < b < j ==> Apart(phases[i], phases[b])
      {
        if !Apart(phases[i], phases[j]) {
          return false;
        }
      }
    }
    ok := true;
  }

  lemma OrderedPhasesDiffer(phases: seq<Allowed>, i: nat, j: nat, state: Observation)
    requires Unambiguous(phases) && i < j < |phases|
    ensures !(Member(phases[i], state) && Member(phases[j], state))
  {
    assert Apart(phases[i], phases[j]);
    var a, b := phases[i], phases[j];
    var key :| key in a && key in b && Disjoint(a[key], b[key]);
  }

  /** In a validated profile no state belongs to two phases. */
  lemma NoStateInTwoPhases(phases: seq<Allowed>, i: nat, j: nat, state: Observation)
    requires Unambiguous(phases) && i < |phases| && j < |phases|
    requires Member(phases[i], state) && Member(phases[j], state)
    ensures i == j
  {
    if i < j {
      OrderedPhasesDiffer(phases, i, j, state);
    } else if j < i {
      OrderedPhasesDiffer(phases, j, i, state);
    }
  }

  ghost predicate Satisfiable(a: Allowed) {
    forall key :: key in a ==> a[key] != []
  }

  ghost predicate Suits(a: Allowed, b: Allowed, key: string, x: int) {
    (key in a ==> x in a[key]) && (key in b ==> x in b[key])
  }

  lemma SuitExists(a: Allowed, b: Allowed, key: string) returns (x: int)
    requires Satisfiable(a) && Satisfiable(b) && !Apart(a, b)
    ensures Suits(a, b, key, x)
  {
    x := 0;
    if key in a && key in b {
      assert !Disjoint(a[key], b[key]);
      var i :| 0 <= i < |a[key]| && a[key][i] in b[key];
      x := a[key][i];
    } else if key in a {
      x := a[key][0];
    } else if key in b {
      x := b[key][0];
    }
  }

  ghost function Choice(a: Allowed, b: Allowed, key: string): (x: int)
    requires Satisfiable(a) && Satisfiable(b) && !Apart(a, b)
    ensures Suits(a, b, key, x)
  {
    assert exists x :: Suits(a, b, key, x) by {
      var y := SuitExists(a, b, key);
    }
    var x :| Suits(a, b, key, x);
    x
  }

  /** The validator refuses no more than it must: two phases it calls ambiguous do share a state. */
  lemma AmbiguousShareAState(a: Allowed, b: Allowed) returns (state: Observation)
    requires Satisfiable(a) && Satisfiable(b) && !Apart(a, b)
    ensures Member(a, state) && Member(b, state)
  {
    state := map key | key in a.Keys + b.Keys :: Choice(a, b, key);
    assert forall key :: key in state ==> Suits(a, b, key, state[key]);
  }

  /** The indices of the phases a state belongs to. */
  function Matches(phases: seq<Allowed>, state: Observation): seq<nat> {
    if phases == [] then []
    else
      var n := |phases| - 1;
      Matches(phases[..n], state) + if Member(phases[n], state) then [n] else []
  }

  lemma {:induction false} MatchesAre(phases: seq<Allowed>, state: Observation)
    ensures forall i :: i in Matches(phases, state) <==> 0 <= i < |phases| && Member(phases[i], state)
  {
    if phases != [] {
      var n := |phases| - 1;
      MatchesAre(phases[..n], state);
      assert forall i :: 0 <= i < n ==> phases[..n][i] == phases[i];
    }
  }
}

module Traversal {
  import opened Bytes
  import opened CounterDelta
  import opened PhaseMembership

  datatype Config = Config(
    phases: seq<Allowed>,
    minimumAdvance: seq<map<string, int>>,
    initialExpected: Observation,
    tick: string, trap: string, world: string, camera: string, screen: string,
    resetPhase: nat, resetExpected: Observation, resetDestination: Byte,
    counterDelta: nat, stallFrames: nat,
    neighborDelta: nat, positionTolerance: nat,
    diagnosticField: string, diagnosticDelta: nat,
    useDiagnostic: bool, minimumTicks: int, minimumMove: int)
  {
    /** What the profile validator guarantees; the reset count is always one. */
    ghost predicate Valid() {
      && |phases| >= 2 && |minimumAdvance| == |phases| && Unambiguous(phases)
      && resetPhase < |phases| - 1
      && 1 <= counterDelta <= 127 && 1 <= diagnosticDelta <= 127
      && minimumTicks >= 1 && minimumMove >= 1
    }

    function Last(): int {
      |phases| - 1
    }
  }

  datatype Row = Row(frame: int, tick: nat, phase: int, state: Observation)

  datatype Tracker = Tracker(
    index: int, ticks: nat, lag: nat, previousTick: Byte, initial: Observation, resets: nat,
    recent: seq<Row>, roomTick: Option<nat>, roomFrame: int,
    hit: Option<int>, previousDiagnostic: Byte, anchor: Option<seq<Row>>, endpoint: Option<seq<Row>>)

  /** Before the boot route reaches the stage. */
  const START := Tracker(-1, 0, 0, 0, map[], 0, [], None, 0, None, 0, None, None)

  /** One physical frame; `staged` says that the boot route is at the stage. */
  datatype Frame = Frame(number: int, state: Observation, staged: bool)

  predicate Agrees(state: Observation, expected: Observation) {
    forall key :: key in expected ==> At(state, key) == expected[key]
  }

  // ----- one frame -----

  predicate IsReset(c: Config, t: Tracker, index: int, state: Observation) {
    && WrappedDelta(t.previousTick, ByteAt(state, c.tick)) > c.counterDelta
    && index == c.resetPhase
    && ByteAt(state, c.tick) == c.resetDestination
    && Agrees(state, c.resetExpected)
    && t.resets < 1
  }

  /** Ticks that pass on this frame: none at the reset. */
  function Elapsed(c: Config, t: Tracker, index: int, state: Observation): Result<nat, RouteError> {
    if IsReset(c, t, index, state) then Ok(0) else Delta(t.previousTick, ByteAt(state, c.tick), c.counterDelta)
  }

  predicate Moved(c: Config, t: Tracker, index: int, state: Observation)
    requires 0 <= index < |c.minimumAdvance|
  {
    forall key :: key in c.minimumAdvance[index] ==> At(state, key) - At(t.initial, key) >= c.minimumAdvance[index][key]
  }

  /** Phase, tick and stall bookkeeping of a frame in the stage. */
  function Advance(c: Config, t: Tracker, f: Frame): Result<Tracker, RouteError>
    requires |c.minimumAdvance| == |c.phases| && 0 <= t.index
  {
    var m := Matches(c.phases, f.state);
    if |m| != 1 || !(m[0] == t.index || m[0] == t.index + 1) || m[0] >= |c.phases| then Err(InvalidTransition)
    else
      var index := m[0];
      match Elapsed(c, t, index, f.state)
      case Err(e) => Err(e)
      case Ok(delta) =>
        var lag := if delta > 0 then 0 else t.lag + 1;
        if lag >= c.stallFrames then Err(Stalled)
        else if index != t.index && !Moved(c, t, index, f.state) then Err(MissingMovement)
        else Ok(AdvanceTo(c, t, f, index, delta))
  }

  /** The bookkeeping of an accepted frame. */
  function AdvanceTo(c: Config, t: Tracker, f: Frame, index: nat, delta: nat): Tracker {
    var entered := index != t.index && index == c.Last();
    t.(index := index,
      resets := if IsReset(c, t, index, f.state) then t.resets + 1 else t.resets,
      previousTick := ByteAt(f.state, c.tick),
      ticks := t.ticks + delta,
      lag := if delta > 0 then 0 else t.lag + 1,
      roomTick := if entered then Some(t.ticks + delta) else t.roomTick,
      roomFrame := if entered then f.number else t.roomFrame)
  }

  function Diagnose(c: Config, t: Tracker, f: Frame): Result<Tracker, RouteError> {
    if !c.useDiagnostic then Ok(t)
    else
      var value := ByteAt(f.state, c.diagnosticField);
      match Delta(t.previousDiagnostic, value, c.diagnosticDelta)
      case Err(e) => Err(e)
      case Ok(delta) =>
        if t.index != c.Last() && value != 0 then Err(EarlyDiagnostic)
        else Ok(t.(previousDiagnostic := value, hit := if delta > 0 && t.hit.None? then Some(f.number) else t.hit))
  }

  predicate Near(c: Config, a: Row, b: Row) {
    && Abs(At(a.state, c.world) - At(b.state, c.world)) <= c.neighborDelta
    && Abs(At(a.state, c.camera) - At(b.state, c.camera)) <= c.neighborDelta
  }

  predicate Coherent(c: Config, r: Row) {
    Abs(At(r.state, c.world) - At(r.state, c.camera) - At(r.state, c.screen)) <= c.positionTolerance
  }

  /** Three consecutive coherent rows of the final phase, none before `earliest`. */
  predicate Confirmed(c: Config, rows: seq<Row>, earliest: int) {
    && |rows| == 3
    && (forall i :: 0 <= i < 3 ==> rows[i].phase == c.Last() && rows[i].frame >= earliest && Coherent(c, rows[i]))
    && Near(c, rows[0], rows[1]) && Near(c, rows[1], rows[2])
  }

  function MinWorld(c: Config, rows: seq<Row>): (r: int)
    requires |rows| > 0
    ensures exists i :: 0 <= i < |rows| && r == At(rows[i].state, c.world)
    ensures forall i :: 0 <= i < |rows| ==> r <= At(rows[i].state, c.world)
  {
    var n := |rows| - 1;
    var x := At(rows[n].state, c.world);
    if n == 0 then x else var m := MinWorld(c, rows[..n]); if x < m then x else m
  }

  function MaxWorld(c: Config, rows: seq<Row>): (r: int)
    requires |rows| > 0
    ensures exists i :: 0 <= i < |rows| && r == At(rows[i].state, c.world)
    ensures forall i :: 0 <= i < |rows| ==> At(rows[i].state, c.world) <= r
  {
    var n := |rows| - 1;
    var x := At(rows[n].state, c.world);
    if n == 0 then x else var m := MaxWorld(c, rows[..n]); if x > m then x else m
  }

  /** The anchor window, then a later one far enough away in ticks and position. */
  function Complete(c: Config, t: Tracker): Result<(Tracker, bool), RouteError>
    requires t.anchor.Some? ==> |t.anchor.value| == 3
  {
    if t.roomTick.None? || (c.useDiagnostic && t.hit.None?) then Ok((t, false))
    else
      var earliest := if c.useDiagnostic then t.hit.value else t.roomFrame;
      if !Confirmed(c, t.recent, earliest) then Ok((t, false))
      else if t.anchor.None? then Ok((t.(anchor := Some(t.recent)), false))
      else
        var start := if c.useDiagnostic then t.anchor.value[1].tick else t.roomTick.value;
        if t.recent[0].tick - start < c.minimumTicks
           || MinWorld(c, t.recent) - MaxWorld(c, t.anchor.value) < c.minimumMove then Ok((t, false))
        else if t.resets != 1 then Err(MissingReset)
        else Ok((t.(endpoint := Some(t.recent)), true))
  }

  /** A deque of three. */
  function Remember(t: Tracker, f: Frame): Tracker {
    var all := t.recent + [Row(f.number, t.ticks, t.index, f.state)];
    t.(recent := if |all| > 3 then all[|all| - 3..] else all)
  }

  function Enter(c: Config, t: Tracker, f: Frame): Result<Tracker, RouteError> {
    if Matches(c.phases, f.state) != [0] || !Agrees(f.state, c.initialExpected) then Err(WrongStart)
    else Ok(t.(index := 0, initial := f.state, previousTick := ByteAt(f.state, c.tick)))
  }

  function Finish(c: Config, t: Tracker, f: Frame): Result<(Tracker, bool), RouteError>
    requires t.anchor.Some? ==> |t.anchor.value| == 3
  {
    match Diagnose(c, t, f)
    case Err(e) => Err(e)
    case Ok(t') => Complete(c, Remember(t', f))
  }

  /** `update`: the new tracker, and whether the run is complete. */
  function Update(c: Config, t: Tracker, f: Frame): Result<(Tracker, bool), RouteError>
    requires |c.minimumAdvance| == |c.phases| && (t.anchor.Some? ==> |t.anchor.value| == 3)
  {
    if At(f.state, c.trap) != 0 then Err(Trap)
    else if t.index < 0 then
      if !f.staged then
        match Diagnose(c, t, f)
        case Err(e) => Err(e)
        case Ok(t') => Ok((t', false))
      else
        match Enter(c, t, f)
        case Err(e) => Err(e)
        case Ok(t') => Finish(c, t', f)
    else
      match Advance(c, t, f)
      case Err(e) => Err(e)
      case Ok(t') => Finish(c, t', f)
  }

  /** One phase cursor, updated in place. After an error the run is over and its state is not used again. */
  class Traverser {
    const c: Config
    var index: int
    var ticks: nat
    var lag: nat
    var previousTick: Byte
    var initial: Observation
    var resets: nat
    var recent: seq<Row>
    var roomTick: Option<nat>
    var roomFrame: int
    var hit: Option<int>
    var previousDiagnostic: Byte
    var anchor: Option<seq<Row>>
    var endpoint: Option<seq<Row>>

    function State(): Tracker
      reads this
    {
      Tracker(index, ticks, lag, previousTick, initial, resets, recent, roomTick, roomFrame, hit, previousDiagnostic, anchor, endpoint)
    }

    constructor (config: Config)
      ensures c == config && State() == START
    {
      c := config;
      index, ticks, lag, previousTick, initial, resets, recent := -1, 0, 0, 0, map[], 0, [];
      roomTick, roomFrame, hit, previousDiagnostic, anchor, endpoint := None, 0, None, 0, None, None;
    }

    method Measure(phase: int, state: Observation) returns (isReset: bool, delta: Result<nat, RouteError>)
      ensures isReset == IsReset(c, State(), phase, state) && delta == Elapsed(c, State(), phase, state)
    {
      var current := ByteAt(state, c.tick);
      var raw: nat := WrappedDelta(previousTick, current);
      isReset := raw > c.counterDelta && phase == c.resetPhase && current == c.resetDestination
                 && Agrees(state, c.resetExpected) && resets < 1;
      delta := if isReset then Ok(0) else Delta(previousTick, current, c.counterDelta);
    }

    method AdvancePhase(f: Frame) returns (error: Option<RouteError>)
      requires |c.minimumAdvance| == |c.phases| && 0 <= index
      modifies this
      ensures Advance(c, old(State()), f) == if error.Some? then Err(error.value) else Ok(State())
    {
      var matches := Matches(c.phases, f.state);
      if |matches| != 1 || !(matches[0] == index || matches[0] == index + 1) || matches[0] >= |c.phases| {
        return Some(InvalidTransition);
      }
      var isReset, measured := Measure(matches[0], f.state);
      if measured.Err? {
        return Some(measured.error);
      }
      var delta := measured.value;
      if (if delta > 0 then 0 else lag + 1) >= c.stallFrames {
        return Some(Stalled);
      }
      if matches[0] != index && !Moved(c, State(), matches[0], f.state) {
        return Some(MissingMovement);
      }
      Commit(f, matches[0], isReset, delta);
      error := None;
    }

    method Commit(f: Frame, phase: nat, isReset: bool, delta: nat)
      requires isReset == IsReset(c, State(), phase, f.state)
      modifies this
      ensures State() == AdvanceTo(c, old(State()), f, phase, delta)
    {
      var entered := phase != index && phase == c.Last();
      index, previousTick, ticks := phase, ByteAt(f.state, c.tick), ticks + delta;
      resets := if isReset then resets + 1 else resets;
      lag := if delta > 0 then 0 else lag + 1;
      if entered {
        roomFrame, roomTick := f.number, Some(ticks);
      }
    }

    method CheckDiagnostic(f: Frame) returns (error: Option<RouteError>)
      modifies this`previousDiagnostic, this`hit
      ensures Diagnose(c, old(State()), f) == if error.Some? then Err(error.value) else Ok(State())
    {
      if !c.useDiagnostic {
        return None;
      }
      var value := ByteAt(f.state, c.diagnosticField);
      var delta := Delta(previousDiagnostic, value, c.diagnosticDelta);
      if delta.Err? {
        return Some(delta.error);
      }
      if index != c.Last() && value != 0 {
        return Some(EarlyDiagnostic);
      }
      previousDiagnostic := value;
      if delta.value > 0 && hit.None? {
        hit := Some(f.number);
      }
      error := None;
    }

    method CheckCompletion() returns (r: Result<bool, RouteError>)
      requires anchor.Some? ==> |anchor.value| == 3
      modifies this`anchor, this`endpoint
      ensures Complete(c, old(State())) == if r.Err? then Err(r.error) else Ok((State(), r.value))
    {
      if roomTick.None? || (c.useDiagnostic && hit.None?) {
        return Ok(false);
      }
      var earliest := if c.useDiagnostic then hit.value else roomFrame;
      if !Confirmed(c, recent, earliest) {
        return Ok(false);
      }
      if anchor.None? {
        anchor := Some(recent);
        return Ok(false);
      }
      var start := if c.useDiagnostic then anchor.value[1].tick else roomTick.value;
      var move := MinWorld(c, recent) - MaxWorld(c, anchor.value);
      if recent[0].tick - start < c.minimumTicks || move < c.minimumMove {
        return Ok(false);
      }
      if resets != 1 {
        return Err(MissingReset);
      }
      endpoint := Some(recent);
      r := Ok(true);
    }

    method FinishFrame(f: Frame) returns (r: Result<bool, RouteError>)
      requires anchor.Some? ==> |anchor.value| == 3
      modifies this
      ensures Finish(c, old(State()), f) == if r.Err? then Err(r.error) else Ok((State(), r.value))
    {
      var error := CheckDiagnostic(f);
      if error.Some? {
        return Err(error.value);
      }
      var all := recent + [Row(f.number, ticks, index, f.state)];
      recent := if |all| > 3 then all[|all| - 3..] else all;
      r := CheckCompletion();
    }

    method UpdateFrame(f: Frame) returns (r: Result<bool, RouteError>)
      requires |c.minimumAdvance| == |c.phases| && (anchor.Some? ==> |anchor.value| == 3)
      modifies this
      ensures Update(c, old(State()), f) == if r.Err? then Err(r.error) else Ok((State(), r.value))
    {
      hide Finish, Diagnose;
      if At(f.state, c.trap) != 0 {
        return Err(Trap);
      }
      var error: Option<RouteError>;
      if index < 0 {
        if !f.staged {
          error := CheckDiagnostic(f);
          return if error.Some? then Err(error.value) else Ok(false);
        }
        if Matches(c.phases, f.state) != [0] || !Agrees(f.state, c.initialExpected) {
          return Err(WrongStart);
        }
        index, initial, previousTick := 0, f.state, ByteAt(f.state, c.tick);
      } else {
        error := AdvancePhase(f);
        if error.Some? {
          return Err(error.value);
        }
      }
      r := FinishFrame(f);
    }
  }

  // ----- whole runs -----

  ghost predicate Good(c: Config, t: Tracker) {
    && -1 <= t.index < |c.phases| && t.resets <= 1
    && (t.anchor.Some? ==> |t.anchor.value| == 3)
    && (t.index < c.resetPhase ==> t.resets == 0)
  }

  /** The trackers before and after each frame of a run that nothing has refused; only its last frame may complete it. */
  ghost predicate Run(c: Config, frames: seq<Frame>, trace: seq<Tracker>, complete: bool)
    requires |c.minimumAdvance| == |c.phases|
  {
    && |trace| == |frames| + 1 && trace[0] == START
    && (forall k :: 0 <= k < |frames| ==> Follows(c, frames, trace, complete, k))
    && (complete ==> frames != [])
  }

  ghost predicate Follows(c: Config, frames: seq<Frame>, trace: seq<Tracker>, complete: bool, k: nat)
    requires |c.minimumAdvance| == |c.phases| && k < |frames| && |trace| == |frames| + 1
  {
    && (trace[k].anchor.Some? ==> |trace[k].anchor.value| == 3)
    && Update(c, trace[k], frames[k]) == Ok((trace[k + 1], complete && k == |frames| - 1))
  }

  lemma AdvanceMeaning(c: Config, t: Tracker, f: Frame)
    requires c.Valid() && Good(c, t) && 0 <= t.index && Advance(c, t, f).Ok?
    ensures var r := Advance(c, t, f).value;
            && Good(c, r) && Member(c.phases[r.index], f.state)
            && t.index <= r.index <= t.index + 1 && t.resets <= r.resets
            && r.anchor == t.anchor && r.recent == t.recent && r.endpoint == t.endpoint && r.hit == t.hit
  {
    MatchesAre(c.phases, f.state);
    var m := Matches(c.phases, f.state);
    assert m[0] in m;
  }

  lemma EnterMeaning(c: Config, t: Tracker, f: Frame)
    requires c.Valid() && Good(c, t) && t.index < 0 && Enter(c, t, f).Ok?
    ensures var r := Enter(c, t, f).value;
            Good(c, r) && r.index == 0 && r.resets == t.resets && Member(c.phases[0], f.state)
  {
    MatchesAre(c.phases, f.state);
    assert 0 in [0];
  }

  lemma DiagnoseMeaning(c: Config, t: Tracker, f: Frame)
    requires Good(c, t) && Diagnose(c, t, f).Ok?
    ensures var r := Diagnose(c, t, f).value;
            Good(c, r) && r == t.(previousDiagnostic := r.previousDiagnostic, hit := r.hit)
  {
  }

  /** The end of a frame keeps the phase and the resets, and completes only in the last phase after a reset. */
  lemma FinishMeaning(c: Config, t: Tracker, f: Frame)
    requires c.Valid() && Good(c, t) && Finish(c, t, f).Ok?
    ensures var (r, complete) := Finish(c, t, f).value;
            && Good(c, r) && r.index == t.index && r.resets == t.resets
            && (complete ==> r.index == c.Last() && r.resets == 1)
  {
    DiagnoseMeaning(c, t, f);
    CompleteMeaning(c, Diagnose(c, t, f).value, f);
  }

  lemma CompleteMeaning(c: Config, t: Tracker, f: Frame)
    requires c.Valid() && Good(c, t) && Complete(c, Remember(t, f)).Ok?
    ensures var (r, complete) := Complete(c, Remember(t, f)).value;
            && Good(c, r) && r.index == t.index && r.resets == t.resets
            && (complete ==> r.index == c.Last() && r.resets == 1)
  {
    LastRow(t, f);
  }

  lemma LastRow(t: Tracker, f: Frame)
    ensures var rows := Remember(t, f).recent;
            0 < |rows| <= |t.recent| + 1 && rows[|rows| - 1] == Row(f.number, t.ticks, t.index, f.state)
  {
  }

  /** One frame keeps or advances the phase by one, never loses a reset, and ends in a phase the frame belongs to. */
  lemma UpdateMeaning(c: Config, t: Tracker, f: Frame)
    requires c.Valid() && Good(c, t) && Update(c, t, f).Ok?
    ensures var (r, complete) := Update(c, t, f).value;
            && Good(c, r) && t.index <= r.index <= t.index + 1 && t.resets <= r.resets
            && (r.index >= 0 ==> Member(c.phases[r.index], f.state))
            && (complete ==> r.index == c.Last() && r.resets == 1)
  {
    hide Finish, Diagnose, Advance, Enter;
    if t.index >= 0 {
      AdvanceMeaning(c, t, f);
      FinishMeaning(c, Advance(c, t, f).value, f);
    } else if f.staged {
      EnterMeaning(c, t, f);
      FinishMeaning(c, Enter(c, t, f).value, f);
    } else {
      DiagnoseMeaning(c, t, f);
    }
  }

  lemma StepMeaning(c: Config, frames: seq<Frame>, trace: seq<Tracker>, complete: bool, k: nat)
    requires c.Valid() && Run(c, frames, trace, complete) && k < |frames| && Good(c, trace[k])
    ensures Good(c, trace[k + 1]) && trace[k].index <= trace[k + 1].index <= trace[k].index + 1 && trace[k].resets <= trace[k + 1].resets
    ensures trace[k + 1].index >= 0 ==> Member(c.phases[trace[k + 1].index], frames[k].state)
    ensures complete && k == |frames| - 1 ==> trace[k + 1].index == c.Last() && trace[k + 1].resets == 1
  {
    assert Follows(c, frames, trace, complete, k);
    UpdateMeaning(c, trace[k], frames[k]);
  }

  lemma {:induction false} AlwaysGood(c: Config, frames: seq<Frame>, trace: seq<Tracker>, complete: bool, n: nat)
    requires c.Valid() && Run(c, frames, trace, complete) && n <= |frames|
    ensures Good(c, trace[n])
  {
    if n > 0 {
      AlwaysGood(c, frames, trace, complete, n - 1);
      StepMeaning(c, frames, trace, complete, n - 1);
    }
  }

  /** Phases change one at a time, so every phase up to the current one has been visited. */
  lemma {:induction false} PhasesVisitedInOrder(c: Config, frames: seq<Frame>, trace: seq<Tracker>, complete: bool, n: nat, phase: nat)
    returns (k: nat)
    requires c.Valid() && Run(c, frames, trace, complete) && n <= |frames| && phase <= trace[n].index && phase < |c.phases|
    ensures k < n && trace[k].index == phase - 1 && trace[k + 1].index == phase && Member(c.phases[phase], frames[k].state)
  {
    AlwaysGood(c, frames, trace, complete, n);
    assert trace[0].index == -1;
    AlwaysGood(c, frames, trace, complete, n - 1);
    StepMeaning(c, frames, trace, complete, n - 1);
    if trace[n - 1].index < phase {
      k := n - 1;
    } else {
      k := PhasesVisitedInOrder(c, frames, trace, complete, n - 1, phase);
    }
  }

  /** A completed run is in the last phase, has entered every phase in order, and has seen exactly one counter reset. */
  lemma CompletedRun(c: Config, frames: seq<Frame>, trace: seq<Tracker>, phase: nat) returns (k: nat)
    requires c.Valid() && Run(c, frames, trace, true) && phase < |c.phases|
    ensures trace[|frames|].index == c.Last() && trace[|frames|].resets == 1
    ensures k < |frames| && trace[k].index == phase - 1 && trace[k + 1].index == phase && Member(c.phases[phase], frames[k].state)
  {
    AlwaysGood(c, frames, trace, true, |frames| - 1);
    StepMeaning(c, frames, trace, true, |frames| - 1);
    k := PhasesVisitedInOrder(c, frames, trace, true, |frames|, phase);
  }

  // ----- the two windows -----

  /** The row recorded for frame `k`. */
  function RowAt(frames: seq<Frame>, trace: seq<Tracker>, k: nat): Row
    requires k < |frames| && |trace| == |frames| + 1
  {
    Row(frames[k].number, trace[k + 1].ticks, trace[k + 1].index, frames[k].state)
  }

  /** `rows` are the rows of consecutive frames ending before frame `n`. */
  ghost predicate RowsBefore(frames: seq<Frame>, trace: seq<Tracker>, rows: seq<Row>, n: nat)
    requires n <= |frames| && |trace| == |frames| + 1
  {
    |rows| <= n && forall i :: 0 <= i < |rows| ==> rows[i] == RowAt(frames, trace, n - |rows| + i)
  }

  lemma FinishRows(c: Config, t: Tracker, f: Frame)
    requires c.Valid() && Good(c, t) && Finish(c, t, f).Ok?
    ensures var (r, complete) := Finish(c, t, f).value;
            && r.index == t.index && r.ticks == t.ticks && r.recent == Remember(t, f).recent
            && (r.anchor == t.anchor || (t.anchor.None? && r.anchor == Some(r.recent) && |r.recent| == 3))
            && (complete ==> t.anchor.Some? && r.anchor == t.anchor && r.endpoint == Some(r.recent) && |r.recent| == 3
                             && MinWorld(c, r.recent) - MaxWorld(c, r.anchor.value) >= c.minimumMove)
  {
    var t' := Diagnose(c, t, f).value;
    assert Remember(t', f).recent == Remember(t, f).recent;
  }

  /** What one frame does to the recorded rows and the confirmed windows. */
  lemma UpdateRows(c: Config, t: Tracker, f: Frame)
    requires c.Valid() && Good(c, t) && Update(c, t, f).Ok?
    ensures var (r, complete) := Update(c, t, f).value;
            && (r.index < 0 ==> r.recent == t.recent && r.anchor == t.anchor)
            && (r.index >= 0 ==> r.recent == Remember(t.(ticks := r.ticks, index := r.index), f).recent)
            && (r.anchor == t.anchor || (t.anchor.None? && r.anchor == Some(r.recent) && |r.recent| == 3))
            && (complete ==> t.anchor.Some? && r.anchor == t.anchor && r.endpoint == Some(r.recent) && |r.recent| == 3
                             && MinWorld(c, r.recent) - MaxWorld(c, r.anchor.value) >= c.minimumMove)
  {
    if t.index >= 0 {
      AdvanceMeaning(c, t, f);
      FinishRows(c, Advance(c, t, f).value, f);
    } else if f.staged {
      FinishRows(c, Enter(c, t, f).value, f);
    }
  }

  lemma AppendRow(frames: seq<Frame>, trace: seq<Tracker>, rows: seq<Row>, n: nat)
    requires n < |frames| && |trace| == |frames| + 1 && RowsBefore(frames, trace, rows, n)
    ensures RowsBefore(frames, trace, rows + [RowAt(frames, trace, n)], n + 1)
  {
    var all := rows + [RowAt(frames, trace, n)];
    forall i | 0 <= i < |all|
      ensures all[i] == RowAt(frames, trace, n + 1 - |all| + i)
    {
      assert i < |rows| ==> all[i] == rows[i];
    }
  }

  lemma DropRow(frames: seq<Frame>, trace: seq<Tracker>, rows: seq<Row>, n: nat)
    requires n <= |frames| && |trace| == |frames| + 1 && rows != [] && RowsBefore(frames, trace, rows, n)
    ensures RowsBefore(frames, trace, rows[1..], n)
  {
    var rest := rows[1..];
    forall i | 0 <= i < |rest|
      ensures rest[i] == RowAt(frames, trace, n - |rest| + i)
    {
      assert rest[i] == rows[i + 1];
    }
  }

  lemma MoreRows(frames: seq<Frame>, trace: seq<Tracker>, t: Tracker, n: nat)
    requires n < |frames| && |trace| == |frames| + 1 && |t.recent| <= 3
    requires RowsBefore(frames, trace, t.recent, n) && t.ticks == trace[n + 1].ticks && t.index == trace[n + 1].index
    ensures RowsBefore(frames, trace, Remember(t, frames[n]).recent, n + 1) && |Remember(t, frames[n]).recent| <= 3
  {
    hide RowsBefore;
    var all := t.recent + [RowAt(frames, trace, n)];
    AppendRow(frames, trace, t.recent, n);
    if |all| > 3 {
      DropRow(frames, trace, all, n + 1);
    }
  }

  lemma {:induction false} RowsAreFrames(c: Config, frames: seq<Frame>, trace: seq<Tracker>, complete: bool, n: nat) returns (a: nat)
    requires c.Valid() && Run(c, frames, trace, complete) && n <= |frames|
    ensures |trace[n].recent| <= 3 && (trace[n].index < 0 ==> trace[n].recent == [] && trace[n].anchor.None?)
    ensures RowsBefore(frames, trace, trace[n].recent, n)
    ensures trace[n].anchor.Some? ==> |trace[n].anchor.value| == 3 && a <= n && RowsBefore(frames, trace, trace[n].anchor.value, a)
  {
    a := 0;
    if n > 0 {
      a := RowsAreFrames(c, frames, trace, complete, n - 1);
      a := RowsStep(c, frames, trace, complete, n - 1, a);
    }
  }

  lemma RowsStep(c: Config, frames: seq<Frame>, trace: seq<Tracker>, complete: bool, n: nat, a: nat) returns (a': nat)
    requires c.Valid() && Run(c, frames, trace, complete) && n < |frames|
    requires |trace[n].recent| <= 3 && (trace[n].index < 0 ==> trace[n].recent == [] && trace[n].anchor.None?)
    requires RowsBefore(frames, trace, trace[n].recent, n)
    requires trace[n].anchor.Some? ==> |trace[n].anchor.value| == 3 && a <= n && RowsBefore(frames, trace, trace[n].anchor.value, a)
    ensures |trace[n + 1].recent| <= 3 && (trace[n + 1].index < 0 ==> trace[n + 1].recent == [] && trace[n + 1].anchor.None?)
    ensures RowsBefore(frames, trace, trace[n + 1].recent, n + 1)
    ensures trace[n + 1].anchor.Some? ==> |trace[n + 1].anchor.value| == 3 && a' <= n + 1 && RowsBefore(frames, trace, trace[n + 1].anchor.value, a')
  {
    var t, r := trace[n], trace[n + 1];
    AlwaysGood(c, frames, trace, complete, n);
    StepMeaning(c, frames, trace, complete, n);
    RowsOfStep(c, frames, trace, complete, n);
    MoreRows(frames, trace, t.(ticks := r.ticks, index := r.index), n);
    a' := if r.anchor != t.anchor then n + 1 else a;
  }

  lemma RowsOfStep(c: Config, frames: seq<Frame>, trace: seq<Tracker>, complete: bool, n: nat)
    requires c.Valid() && Run(c, frames, trace, complete) && n < |frames| && Good(c, trace[n])
    ensures var t, r := trace[n], trace[n + 1];
            && (r.index < 0 ==> r.recent == t.recent && r.anchor == t.anchor)
            && (r.index >= 0 ==> r.recent == Remember(t.(ticks := r.ticks, index := r.index), frames[n]).recent)
            && (r.anchor == t.anchor || (t.anchor.None? && r.anchor == Some(r.recent) && |r.recent| == 3))
  {
    assert Follows(c, frames, trace, complete, n);
    UpdateRows(c, trace[n], frames[n]);
  }

  /** Windows that share a frame share its position. */
  lemma SharedFrameSharesPosition(c: Config, frames: seq<Frame>, trace: seq<Tracker>, anchor: seq<Row>, a: nat, end: seq<Row>, n: nat)
    requires |trace| == |frames| + 1 && |anchor| == 3 && |end| == 3 && a <= n <= |frames|
    requires RowsBefore(frames, trace, anchor, a) && RowsBefore(frames, trace, end, n)
    ensures a + 3 > n ==> MinWorld(c, end) <= MaxWorld(c, anchor)
  {
    if a + 3 > n {
      var i := 2 - (n - a);
      assert anchor[2] == RowAt(frames, trace, a - 1) && end[i] == RowAt(frames, trace, n - 3 + i);
      assert At(anchor[2].state, c.world) == At(end[i].state, c.world);
    }
  }

  lemma RunShape(c: Config, frames: seq<Frame>, trace: seq<Tracker>)
    requires c.Valid() && Run(c, frames, trace, true)
    ensures |trace| == |frames| + 1 && frames != []
  {
  }

  /** The frame that completes a run leaves the anchor and makes its last three rows the endpoint, far enough away. */
  lemma LastFrame(c: Config, frames: seq<Frame>, trace: seq<Tracker>)
    requires c.Valid() && Run(c, frames, trace, true)
    ensures var t, r := trace[|frames| - 1], trace[|frames|];
            && t.anchor.Some? && r.anchor == t.anchor && |r.anchor.value| == 3
            && r.endpoint == Some(r.recent) && |r.recent| == 3
            && MinWorld(c, r.recent) - MaxWorld(c, r.anchor.value) >= c.minimumMove
  {
    hide MinWorld, MaxWorld, Update;
    var n := |frames|;
    AlwaysGood(c, frames, trace, true, n - 1);
    assert Follows(c, frames, trace, true, n - 1);
    UpdateRows(c, trace[n - 1], frames[n - 1]);
  }

  /**
   In a completed run the anchor and endpoint windows are each three consecutive frames, the
   endpoint being the last three, and they share none.
   */
  lemma WindowsShareNoFrame(c: Config, frames: seq<Frame>, trace: seq<Tracker>) returns (a: nat)
    requires c.Valid() && Run(c, frames, trace, true)
    ensures var n := |frames|;
            && trace[n].anchor.Some? && trace[n].endpoint.Some?
            && |trace[n].anchor.value| == 3 && |trace[n].endpoint.value| == 3
            && 3 <= a && a + 3 <= n
            && RowsBefore(frames, trace, trace[n].anchor.value, a)
            && RowsBefore(frames, trace, trace[n].endpoint.value, n)
  {
    hide Run, RowsBefore, MinWorld, MaxWorld;
    var n := |frames|;
    RunShape(c, frames, trace);
    LastFrame(c, frames, trace);
    a := RowsAreFrames(c, frames, trace, true, n - 1);
    var _ := RowsAreFrames(c, frames, trace, true, n);
    SharedFrameSharesPosition(c, frames, trace, trace[n].anchor.value, a, trace[n].recent, n);
  }

  // ----- elapsed ticks -----

  lemma UpdateTicks(c: Config, t: Tracker, f: Frame)
    requires c.Valid() && Good(c, t) && Update(c, t, f).Ok?
    ensures var (r, complete) := Update(c, t, f).value;
            && (r.index < 0 ==> r.ticks == t.ticks)
            && (t.index < 0 <= r.index ==> r.ticks == t.ticks && r.previousTick == ByteAt(f.state, c.tick))
            && (0 <= t.index ==> r.previousTick == ByteAt(f.state, c.tick) && Elapsed(c, t, r.index, f.state).Ok?
                                 && r.ticks == t.ticks + Elapsed(c, t, r.index, f.state).value)
  {
    if t.index >= 0 {
      AdvanceMeaning(c, t, f);
    }
  }

  /** Frame `k` is in the stage and is not the tolerated reset. */
  ghost predicate Counts(c: Config, frames: seq<Frame>, trace: seq<Tracker>, k: nat)
    requires k < |frames| && |trace| == |frames| + 1
  {
    0 <= trace[k].index && !IsReset(c, trace[k], trace[k + 1].index, frames[k].state)
  }

  /** In the stage the tracker holds the counter byte of the frame before. */
  lemma HoldsPreviousByte(c: Config, frames: seq<Frame>, trace: seq<Tracker>, complete: bool, k: nat)
    requires c.Valid() && Run(c, frames, trace, complete) && k <= |frames| && 0 <= trace[k].index
    ensures k > 0 && trace[k].previousTick == ByteAt(frames[k - 1].state, c.tick)
  {
    assert trace[0].index == -1;
    AlwaysGood(c, frames, trace, complete, k - 1);
    assert Follows(c, frames, trace, complete, k - 1);
    UpdateTicks(c, trace[k - 1], frames[k - 1]);
  }

  /** The producer's true advances from each frame to the next: at most the allowed delta where they count. */
  ghost predicate Produces(c: Config, frames: seq<Frame>, trace: seq<Tracker>, advances: seq<nat>)
    requires |trace| == |frames| + 1
  {
    && |advances| == |frames|
    && forall k :: 0 < k < |frames| && Counts(c, frames, trace, k) ==>
         advances[k] <= c.counterDelta
         && ByteAt(frames[k].state, c.tick) == (ByteAt(frames[k - 1].state, c.tick) + advances[k]) % 256
  }

  ghost function TrueTicks(c: Config, frames: seq<Frame>, trace: seq<Tracker>, advances: seq<nat>, n: nat): nat
    requires |trace| == |frames| + 1 && |advances| == |frames| && n <= |frames|
  {
    if n == 0 then 0
    else TrueTicks(c, frames, trace, advances, n - 1) + if Counts(c, frames, trace, n - 1) then advances[n - 1] else 0
  }

  /** The accumulated ticks are the true ones, however often the eight-bit counter wraps. */
  lemma {:induction false} TicksAreTrue(c: Config, frames: seq<Frame>, trace: seq<Tracker>, complete: bool, advances: seq<nat>, n: nat)
    requires c.Valid() && Run(c, frames, trace, complete) && Produces(c, frames, trace, advances) && n <= |frames|
    ensures trace[n].ticks == TrueTicks(c, frames, trace, advances, n)
  {
    hide IsReset, Update, Delta, WrappedDelta, ByteAt;
    if n > 0 {
      TicksAreTrue(c, frames, trace, complete, advances, n - 1);
      AlwaysGood(c, frames, trace, complete, n - 1);
      assert Follows(c, frames, trace, complete, n - 1);
      var t := trace[n - 1];
      UpdateTicks(c, t, frames[n - 1]);
      if Counts(c, frames, trace, n - 1) {
        HoldsPreviousByte(c, frames, trace, complete, n - 1);
        DeltaIsExact(t.previousTick, advances[n - 1], c.counterDelta);
      }
    }
  }
}
