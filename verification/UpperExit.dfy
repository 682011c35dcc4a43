/**
 The upper-exit acceptor: ordered phases after a frozen prefix, each left on a qualifying
 state, the last confirmed by several ticking samples, with one counter reset on the way.
 The prefix is an input; recorded events and button choices are not modelled.
 */
module UpperExit {
  import opened Bytes
  import opened CounterDelta
  import opened PhaseMembership

  datatype Rule = Exactly(value: int) | OneOf(values: seq<int>) | Between(minimum: int, maximum: int)

  predicate Meets(x: int, rule: Rule) {
    match rule
    case Exactly(v) => x == v
    case OneOf(values) => x in values
    case Between(lo, hi) => lo <= x <= hi
  }

  type Constraints = map<string, Rule>

  predicate Satisfies(state: Observation, rules: Constraints) {
    forall key :: key in rules ==> Meets(At(state, key), rules[key])
  }

  datatype PhaseSpec = PhaseSpec(
    allowed: Constraints, finish: Constraints, seen: Option<Constraints>,
    minimumTicks: nat, maximumTicks: nat, minimumAdvance: nat)

  datatype Config = Config(
    phases: seq<PhaseSpec>, tick: string, trap: string, world: string, camera: string, screen: string,
    alive: Constraints, fatal: Constraints,
    resetPhase: nat, resetPrevious: Constraints, resetCurrent: Constraints, resetDestination: Byte,
    counterDelta: nat, stallFrames: nat, extraTicks: nat, samples: nat, positionTolerance: nat)
  {
    /** What the profile loader guarantees; the reset count is always one. */
    predicate Valid() {
      && |phases| >= 2 && resetPhase < |phases| - 1
      && 1 <= counterDelta <= 127 && samples >= 2
      && phases[|phases| - 1].minimumTicks >= 1 && phases[|phases| - 1].minimumAdvance >= 1
    }

    function Last(): int {
      |phases| - 1
    }
  }

  datatype Runner = Runner(
    index: int, ticks: nat, phaseTick: nat, lag: nat, previous: Byte, previousState: Observation,
    anchor: int, seen: bool, confirmed: nat, resets: nat)

  const START := Runner(-1, 0, 0, 0, 0, map[], 0, false, 0, 0)

  /** One physical frame; `prefixDone` says that the frozen prefix completes on it. */
  datatype Frame = Frame(state: Observation, prefixDone: bool)

  predicate Fatal(c: Config, state: Observation) {
    (exists key :: key in c.fatal && Meets(At(state, key), c.fatal[key])) || !Satisfies(state, c.alive)
  }

  predicate IsReset(c: Config, t: Runner, state: Observation) {
    var current := ByteAt(state, c.tick);
    && current == c.resetDestination && t.previous != current
    && WrappedDelta(t.previous, current) > c.counterDelta
    && t.index == c.resetPhase
    && Satisfies(t.previousState, c.resetPrevious) && Satisfies(state, c.resetCurrent)
  }

  function Elapsed(c: Config, t: Runner, state: Observation): Result<nat, RouteError> {
    if IsReset(c, t, state) then (if t.resets >= 1 then Err(DuplicateReset) else Ok(0))
    else Delta(t.previous, ByteAt(state, c.tick), c.counterDelta)
  }

  predicate Coherent(c: Config, state: Observation) {
    Abs(At(state, c.world) - At(state, c.camera) - At(state, c.screen)) <= c.positionTolerance
  }

  predicate Qualifies(c: Config, t: Runner, spec: PhaseSpec, state: Observation) {
    && t.seen && Coherent(c, state) && t.ticks - t.phaseTick >= spec.minimumTicks
    && Satisfies(state, spec.finish)
    && (spec.minimumAdvance > 0 ==> At(state, c.world) - t.anchor >= spec.minimumAdvance)
  }

  /** Enters the next phase; the reset phase may only be left with its reset seen. */
  function Advance(c: Config, t: Runner, state: Observation): Result<Runner, RouteError> {
    if t.index == c.resetPhase && t.resets != 1 then Err(MissingReset)
    else Ok(t.(index := t.index + 1, phaseTick := t.ticks, anchor := At(state, c.world), seen := false, confirmed := 0))
  }

  /** Tick, lag and sighting bookkeeping. */
  function Tick(c: Config, t: Runner, state: Observation): Result<Runner, RouteError>
    requires 0 <= t.index < |c.phases|
  {
    match Elapsed(c, t, state)
    case Err(e) => Err(e)
    case Ok(delta) =>
      var reset := IsReset(c, t, state);
      var r := t.(ticks := t.ticks + delta, previous := ByteAt(state, c.tick), previousState := state,
                  lag := if delta > 0 || reset then 0 else t.lag + 1,
                  resets := if reset then t.resets + 1 else t.resets);
      var spec := c.phases[t.index];
      if r.lag > c.stallFrames then Err(Stalled)
      else if r.ticks > c.extraTicks then Err(TickLimit)
      else if !Satisfies(state, spec.allowed) then Err(UnexpectedState)
      else if r.ticks - r.phaseTick > spec.maximumTicks then Err(TickLimit)
      else Ok(r.(seen := t.seen || spec.seen.None? || Satisfies(state, spec.seen.value)))
  }

  function Confirm(c: Config, t: Runner, ticked: bool, state: Observation): Result<Runner, RouteError>
    requires 0 <= t.index < |c.phases|
  {
    if !Qualifies(c, t, c.phases[t.index], state) then Ok(t.(confirmed := 0))
    else
      var r := t.(confirmed := t.confirmed + if ticked then 1 else 0);
      if r.index < c.Last() || r.confirmed >= c.samples then Advance(c, r, state) else Ok(r)
  }

  /** `update`; the run is complete when the index reaches the number of phases. */
  function Update(c: Config, t: Runner, f: Frame): Result<Runner, RouteError>
    requires t.index < |c.phases|
  {
    if At(f.state, c.trap) != 0 then Err(Trap)
    else if t.index < 0 then
      if !f.prefixDone then Ok(t)
      else Advance(c, t.(previous := ByteAt(f.state, c.tick), previousState := f.state), f.state)
    else if Fatal(c, f.state) then Err(NotAlive)
    else
      match Tick(c, t, f.state)
      case Err(e) => Err(e)
      case Ok(r) => Confirm(c, r, r.ticks > t.ticks, f.state)
  }

  class Exit {
    const c: Config
    var index: int
    var ticks: nat
    var phaseTick: nat
    var lag: nat
    var previous: Byte
    var previousState: Observation
    var anchor: int
    var seen: bool
    var confirmed: nat
    var resets: nat

    function State(): Runner
      reads this
    {
      Runner(index, ticks, phaseTick, lag, previous, previousState, anchor, seen, confirmed, resets)
    }

    constructor (config: Config)
      ensures c == config && State() == START
    {
      c := config;
      index, ticks, phaseTick, lag, previous, previousState := -1, 0, 0, 0, 0, map[];
      anchor, seen, confirmed, resets := 0, false, 0, 0;
    }

    method AdvancePhase(state: Observation) returns (error: Option<RouteError>)
      modifies this
      ensures Advance(c, old(State()), state) == if error.Some? then Err(error.value) else Ok(State())
    {
      if index == c.resetPhase && resets != 1 {
        return Some(MissingReset);
      }
      index, phaseTick, anchor, seen, confirmed := index + 1, ticks, At(state, c.world), false, 0;
      error := None;
    }

    method Measure(state: Observation) returns (isReset: bool, delta: Result<nat, RouteError>)
      ensures isReset == IsReset(c, State(), state) && delta == Elapsed(c, State(), state)
    {
      var current := ByteAt(state, c.tick);
      isReset := current == c.resetDestination && previous != current && WrappedDelta(previous, current) > c.counterDelta
                 && index == c.resetPhase && Satisfies(previousState, c.resetPrevious) && Satisfies(state, c.resetCurrent);
      if isReset {
        delta := if resets >= 1 then Err(DuplicateReset) else Ok(0);
      } else {
        delta := Delta(previous, current, c.counterDelta);
      }
    }

    method TickFrame(state: Observation) returns (error: Option<RouteError>)
      requires 0 <= index < |c.phases|
      modifies this
      ensures Tick(c, old(State()), state) == if error.Some? then Err(error.value) else Ok(State())
    {
      var isReset, delta := Measure(state);
      if delta.Err? {
        return Some(delta.error);
      }
      previous, previousState, ticks := ByteAt(state, c.tick), state, ticks + delta.value;
      lag := if delta.value > 0 || isReset then 0 else lag + 1;
      resets := if isReset then resets + 1 else resets;
      var spec := c.phases[index];
      if lag > c.stallFrames {
        return Some(Stalled);
      }
      if ticks > c.extraTicks {
        return Some(TickLimit);
      }
      if !Satisfies(state, spec.allowed) {
        return Some(UnexpectedState);
      }
      if ticks - phaseTick > spec.maximumTicks {
        return Some(TickLimit);
      }
      seen := seen || spec.seen.None? || Satisfies(state, spec.seen.value);
      error := None;
    }

    method ConfirmFrame(ticked: bool, state: Observation) returns (error: Option<RouteError>)
      requires 0 <= index < |c.phases|
      modifies this
      ensures Confirm(c, old(State()), ticked, state) == if error.Some? then Err(error.value) else Ok(State())
    {
      error := None;
      if !Qualifies(c, State(), c.phases[index], state) {
        confirmed := 0;
        return;
      }
      confirmed := confirmed + if ticked then 1 else 0;
      if index < c.Last() || confirmed >= c.samples {
        error := AdvancePhase(state);
      }
    }

    method UpdateFrame(f: Frame) returns (r: Result<bool, RouteError>)
      requires index < |c.phases|
      modifies this
      ensures Update(c, old(State()), f) == if r.Err? then Err(r.error) else Ok(State())
      ensures r.Ok? ==> r.value == (index == |c.phases|)
    {
      if At(f.state, c.trap) != 0 {
        return Err(Trap);
      }
      var error: Option<RouteError> := None;
      if index < 0 {
        if f.prefixDone {
          previous, previousState := ByteAt(f.state, c.tick), f.state;
          error := AdvancePhase(f.state);
        }
      } else {
        if Fatal(c, f.state) {
          return Err(NotAlive);
        }
        var before := ticks;
        error := TickFrame(f.state);
        if error.None? {
          error := ConfirmFrame(ticks > before, f.state);
        }
      }
      r := if error.Some? then Err(error.value) else Ok(index == |c.phases|);
    }
  }

  // ----- whole runs -----

  ghost predicate Good(c: Config, t: Runner) {
    && -1 <= t.index <= |c.phases| && t.resets <= 1
    && (t.index < c.resetPhase ==> t.resets == 0) && (t.index > c.resetPhase ==> t.resets == 1)
    && t.phaseTick <= t.ticks && t.confirmed <= t.ticks - t.phaseTick
    && t.ticks <= c.extraTicks && (t.index < 0 ==> t.ticks == 0)
  }

  /** What it takes to leave a phase. */
  predicate Left(c: Config, t: Runner, r: Runner, state: Observation) {
    && 0 <= t.index < |c.phases| && Satisfies(state, c.phases[t.index].allowed) && Satisfies(state, c.phases[t.index].finish)
    && Coherent(c, state) && !Fatal(c, state)
    && c.phases[t.index].minimumTicks <= r.ticks - t.phaseTick <= c.phases[t.index].maximumTicks
    && (c.phases[t.index].minimumAdvance > 0 ==> At(state, c.world) - t.anchor >= c.phases[t.index].minimumAdvance)
    && (t.index == c.Last() ==> r.ticks - t.phaseTick >= c.samples)
  }

  lemma TickMeaning(c: Config, t: Runner, state: Observation)
    requires c.Valid() && Good(c, t) && 0 <= t.index < |c.phases| && Tick(c, t, state).Ok?
    ensures var r := Tick(c, t, state).value;
            && Good(c, r) && r.index == t.index && t.resets <= r.resets && r.phaseTick == t.phaseTick && r.anchor == t.anchor
            && r.confirmed == t.confirmed && r.ticks >= t.ticks && r.ticks - r.phaseTick <= c.phases[t.index].maximumTicks
            && Satisfies(state, c.phases[t.index].allowed)
  {
  }

  /** One frame keeps or advances the phase by one, and advances only on everything the phase demands. */
  lemma UpdateMeaning(c: Config, t: Runner, f: Frame)
    requires c.Valid() && Good(c, t) && t.index < |c.phases| && Update(c, t, f).Ok?
    ensures var r := Update(c, t, f).value;
            && Good(c, r) && t.index <= r.index <= t.index + 1 && t.resets <= r.resets && t.ticks <= r.ticks
            && (r.index > t.index >= 0 ==> Left(c, t, r, f.state))
  {
    if t.index >= 0 {
      TickMeaning(c, t, f.state);
      var r := Tick(c, t, f.state).value;
      ConfirmMeaning(c, t, r, f.state);
    }
  }

  lemma ConfirmMeaning(c: Config, t: Runner, r: Runner, state: Observation)
    requires c.Valid() && Good(c, t) && Good(c, r) && 0 <= t.index < |c.phases| && !Fatal(c, state)
    requires r.index == t.index && r.phaseTick == t.phaseTick && r.anchor == t.anchor && r.confirmed == t.confirmed && r.ticks >= t.ticks
    requires r.ticks - r.phaseTick <= c.phases[t.index].maximumTicks && Satisfies(state, c.phases[t.index].allowed)
    requires Confirm(c, r, r.ticks > t.ticks, state).Ok?
    ensures var n := Confirm(c, r, r.ticks > t.ticks, state).value;
            && Good(c, n) && t.index <= n.index <= t.index + 1 && n.resets == r.resets && n.ticks == r.ticks
            && (n.index > t.index ==> Left(c, t, n, state))
  {
  }

  ghost predicate Run(c: Config, frames: seq<Frame>, trace: seq<Runner>) {
    && |trace| == |frames| + 1 && trace[0] == START
    && forall k :: 0 <= k < |frames| ==> Follows(c, frames, trace, k)
  }

  ghost predicate Follows(c: Config, frames: seq<Frame>, trace: seq<Runner>, k: nat)
    requires k < |frames| && |trace| == |frames| + 1
  {
    trace[k].index < |c.phases| && Update(c, trace[k], frames[k]) == Ok(trace[k + 1])
  }

  lemma StepMeaning(c: Config, frames: seq<Frame>, trace: seq<Runner>, k: nat)
    requires c.Valid() && Run(c, frames, trace) && k < |frames| && Good(c, trace[k])
    ensures var t, r := trace[k], trace[k + 1];
            && Good(c, r) && t.index <= r.index <= t.index + 1 && t.resets <= r.resets
            && (r.index > t.index >= 0 ==> Left(c, t, r, frames[k].state))
  {
    assert Follows(c, frames, trace, k);
    UpdateMeaning(c, trace[k], frames[k]);
  }

  lemma {:induction false} AlwaysGood(c: Config, frames: seq<Frame>, trace: seq<Runner>, n: nat)
    requires c.Valid() && Run(c, frames, trace) && n <= |frames|
    ensures Good(c, trace[n])
  {
    if n > 0 {
      AlwaysGood(c, frames, trace, n - 1);
      StepMeaning(c, frames, trace, n - 1);
    }
  }

  /** Each phase up to the current one has been left, in order, on a frame that met all its demands. */
  lemma {:induction false} PhasesLeftInOrder(c: Config, frames: seq<Frame>, trace: seq<Runner>, n: nat, phase: nat) returns (k: nat)
    requires c.Valid() && Run(c, frames, trace) && n <= |frames| && phase < trace[n].index
    ensures k < n && trace[k].index == phase && trace[k + 1].index == phase + 1
    ensures Left(c, trace[k], trace[k + 1], frames[k].state)
  {
    assert trace[0].index == -1;
    AlwaysGood(c, frames, trace, n - 1);
    StepMeaning(c, frames, trace, n - 1);
    if trace[n - 1].index <= phase {
      k := n - 1;
    } else {
      k := PhasesLeftInOrder(c, frames, trace, n - 1, phase);
    }
  }

  /**
   A complete run has left every phase in order, has seen exactly one counter reset, and stayed
   in the final phase for at least the required number of ticking samples and movement.
   */
  lemma CompletedRun(c: Config, frames: seq<Frame>, trace: seq<Runner>, phase: nat) returns (k: nat)
    requires c.Valid() && Run(c, frames, trace) && trace[|frames|].index == |c.phases| && phase < |c.phases|
    ensures trace[|frames|].resets == 1 && trace[|frames|].ticks <= c.extraTicks
    ensures k < |frames| && trace[k].index == phase && trace[k + 1].index == phase + 1
    ensures Left(c, trace[k], trace[k + 1], frames[k].state)
  {
    AlwaysGood(c, frames, trace, |frames|);
    k := PhasesLeftInOrder(c, frames, trace, |frames|, phase);
  }

  // ----- sightings and samples -----

  /** Frame `k`, met in a phase, qualifies for leaving it. */
  ghost predicate QualifiesAt(c: Config, frames: seq<Frame>, trace: seq<Runner>, k: nat)
    requires k < |frames| && |trace| == |frames| + 1
  {
    && 0 <= trace[k].index < |c.phases| && Tick(c, trace[k], frames[k].state).Ok?
    && Qualifies(c, Tick(c, trace[k], frames[k].state).value, c.phases[trace[k].index], frames[k].state)
  }

  /** How many of the frames `s..n` advanced the game clock. */
  ghost function Ticking(trace: seq<Runner>, s: nat, n: nat): nat
    requires s <= n < |trace|
  {
    if s == n then 0 else Ticking(trace, s, n - 1) + if trace[n].ticks > trace[n - 1].ticks then 1 else 0
  }

  /** What one frame does to the confirmation count and the sighting. */
  lemma UpdateConfirms(c: Config, t: Runner, f: Frame)
    requires c.Valid() && Good(c, t) && 0 <= t.index < |c.phases| && Update(c, t, f).Ok?
    ensures Tick(c, t, f.state).Ok?
    ensures var r, k := Update(c, t, f).value, Tick(c, t, f.state).value;
            && r.ticks == k.ticks
            && (r.index == t.index && !Qualifies(c, k, c.phases[t.index], f.state) ==> r.confirmed == 0)
            && (r.index == t.index && Qualifies(c, k, c.phases[t.index], f.state) ==>
                  r.confirmed == t.confirmed + if r.ticks > t.ticks then 1 else 0)
            && (r.index == t.index ==> r.seen == k.seen)
            && (r.index > t.index ==> r.confirmed == 0 && !r.seen && Qualifies(c, k, c.phases[t.index], f.state))
            && (r.index > t.index == c.Last() ==> t.confirmed + (if r.ticks > t.ticks then 1 else 0) >= c.samples)
            && (k.seen ==> t.seen || c.phases[t.index].seen.None? || Satisfies(f.state, c.phases[t.index].seen.value))
  {
    TickMeaning(c, t, f.state);
  }

  lemma EntersFresh(c: Config, t: Runner, f: Frame)
    requires t.index < |c.phases| && Update(c, t, f).Ok?
    ensures var r := Update(c, t, f).value; t.index < 0 ==> r == t || (r.confirmed == 0 && !r.seen)
  {
  }

  /** The confirmation count is the number of ticking frames in a stretch of qualifying ones that reaches up to now. */
  lemma {:induction false} CountIsStretch(c: Config, frames: seq<Frame>, trace: seq<Runner>, n: nat) returns (s: nat)
    requires c.Valid() && Run(c, frames, trace) && n <= |frames| && 0 <= trace[n].index < |c.phases|
    ensures s <= n && Ticking(trace, s, n) == trace[n].confirmed
    ensures forall i :: s <= i < n ==> trace[i].index == trace[n].index && QualifiesAt(c, frames, trace, i)
  {
    hide Update, Tick;
    s := n;
    if n > 0 {
      var t, r := trace[n - 1], trace[n];
      AlwaysGood(c, frames, trace, n - 1);
      assert Follows(c, frames, trace, n - 1);
      UpdateMeaning(c, t, frames[n - 1]);
      if t.index < 0 {
        EntersFresh(c, t, frames[n - 1]);
      } else {
        UpdateConfirms(c, t, frames[n - 1]);
        if r.index == t.index && QualifiesAt(c, frames, trace, n - 1) {
          s := CountIsStretch(c, frames, trace, n - 1);
        }
      }
    }
  }

  /**
   The last phase is left only on a stretch of qualifying frames, up to and including the
   leaving one, that holds at least the required number of ticking samples.
   */
  lemma FinalSamples(c: Config, frames: seq<Frame>, trace: seq<Runner>, k: nat) returns (s: nat)
    requires c.Valid() && Run(c, frames, trace) && k < |frames|
    requires trace[k].index == c.Last() && trace[k + 1].index == |c.phases|
    ensures s <= k && Ticking(trace, s, k + 1) >= c.samples
    ensures forall i :: s <= i <= k ==> trace[i].index == c.Last() && QualifiesAt(c, frames, trace, i)
  {
    AlwaysGood(c, frames, trace, k);
    s := CountIsStretch(c, frames, trace, k);
    assert Follows(c, frames, trace, k);
    UpdateConfirms(c, trace[k], frames[k]);
  }

  /** A sighting recorded in a phase with one to make was made on a frame of that phase. */
  lemma {:induction false} SeenIsSighted(c: Config, frames: seq<Frame>, trace: seq<Runner>, n: nat) returns (i: nat)
    requires c.Valid() && Run(c, frames, trace) && n <= |frames| && 0 <= trace[n].index < |c.phases|
    requires trace[n].seen && c.phases[trace[n].index].seen.Some?
    ensures i < n && trace[i].index == trace[n].index && Satisfies(frames[i].state, c.phases[trace[n].index].seen.value)
  {
    AlwaysGood(c, frames, trace, n - 1);
    assert Follows(c, frames, trace, n - 1);
    UpdateMeaning(c, trace[n - 1], frames[n - 1]);
    EntersFresh(c, trace[n - 1], frames[n - 1]);
    if trace[n - 1].index >= 0 {
      UpdateConfirms(c, trace[n - 1], frames[n - 1]);
    }
    i := n - 1;
    if !Satisfies(frames[n - 1].state, c.phases[trace[n].index].seen.value) {
      i := SeenIsSighted(c, frames, trace, n - 1);
    }
  }

  /** A phase that demands a sighting is left only after one, on a frame of that phase. */
  lemma LeftAfterSighting(c: Config, frames: seq<Frame>, trace: seq<Runner>, k: nat) returns (i: nat)
    requires c.Valid() && Run(c, frames, trace) && k < |frames|
    requires 0 <= trace[k].index < trace[k + 1].index && trace[k].index < |c.phases| && c.phases[trace[k].index].seen.Some?
    ensures i <= k && trace[i].index == trace[k].index && Satisfies(frames[i].state, c.phases[trace[k].index].seen.value)
  {
    AlwaysGood(c, frames, trace, k);
    assert Follows(c, frames, trace, k);
    UpdateMeaning(c, trace[k], frames[k]);
    UpdateConfirms(c, trace[k], frames[k]);
    i := k;
    if !Satisfies(frames[k].state, c.phases[trace[k].index].seen.value) {
      i := SeenIsSighted(c, frames, trace, k);
    }
  }

  // ----- elapsed ticks -----

  ghost predicate Counts(c: Config, frames: seq<Frame>, trace: seq<Runner>, k: nat)
    requires k < |frames| && |trace| == |frames| + 1
  {
    0 <= trace[k].index && !IsReset(c, trace[k], frames[k].state)
  }

  /** After the prefix the tracker holds the counter byte of the frame before. */
  lemma HoldsPreviousByte(c: Config, frames: seq<Frame>, trace: seq<Runner>, k: nat)
    requires c.Valid() && Run(c, frames, trace) && k <= |frames| && 0 <= trace[k].index
    ensures k > 0 && trace[k].previous == ByteAt(frames[k - 1].state, c.tick)
  {
    assert trace[0].index == -1;
    assert Follows(c, frames, trace, k - 1);
    UpdateTicks(c, trace[k - 1], frames[k - 1]);
  }

  /** The producer's true advances from each frame to the next: at most the allowed delta where they count. */
  ghost predicate Produces(c: Config, frames: seq<Frame>, trace: seq<Runner>, advances: seq<nat>)
    requires |trace| == |frames| + 1
  {
    && |advances| == |frames|
    && forall k :: 0 < k < |frames| && Counts(c, frames, trace, k) ==>
         advances[k] <= c.counterDelta
         && ByteAt(frames[k].state, c.tick) == (ByteAt(frames[k - 1].state, c.tick) + advances[k]) % 256
  }

  ghost function TrueTicks(c: Config, frames: seq<Frame>, trace: seq<Runner>, advances: seq<nat>, n: nat): nat
    requires |trace| == |frames| + 1 && |advances| == |frames| && n <= |frames|
  {
    if n == 0 then 0
    else TrueTicks(c, frames, trace, advances, n - 1) + if Counts(c, frames, trace, n - 1) then advances[n - 1] else 0
  }

  lemma UpdateTicks(c: Config, t: Runner, f: Frame)
    requires c.Valid() && t.index < |c.phases| && Update(c, t, f).Ok?
    ensures var r := Update(c, t, f).value;
            && (t.index < 0 ==> r.ticks == t.ticks)
            && (t.index >= 0 ==> Elapsed(c, t, f.state).Ok? && r.ticks == t.ticks + Elapsed(c, t, f.state).value)
            && (r.index >= 0 ==> r.previous == ByteAt(f.state, c.tick))
  {
  }

  /** The accumulated ticks are the true ones outside the reset frame, however often the counter wraps. */
  lemma {:induction false} TicksAreTrue(c: Config, frames: seq<Frame>, trace: seq<Runner>, advances: seq<nat>, n: nat)
    requires c.Valid() && Run(c, frames, trace) && Produces(c, frames, trace, advances) && n <= |frames|
    ensures trace[n].ticks == TrueTicks(c, frames, trace, advances, n)
  {
    if n > 0 {
      TicksAreTrue(c, frames, trace, advances, n - 1);
      assert Follows(c, frames, trace, n - 1);
      UpdateTicks(c, trace[n - 1], frames[n - 1]);
      if Counts(c, frames, trace, n - 1) {
        HoldsPreviousByte(c, frames, trace, n - 1);
        DeltaIsExact(trace[n - 1].previous, advances[n - 1], c.counterDelta);
      }
    }
  }
}
