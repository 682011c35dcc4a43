/**
 The upper exit as a property of the frames alone: which sequences of frames are accepted,
 and on which frames the phases are left, with no runner carried along.
 */
module UpperExitHistory {
  import opened Bytes
  import opened CounterDelta
  import opened PhaseMembership
  import opened UpperExit

  // ----- reading the frames -----

  /** `s` is the frame the prefix completes on, or the number of frames when there is none. */
  ghost predicate PrefixEnds(frames: seq<Frame>, s: nat) {
    s <= |frames| && (s < |frames| ==> frames[s].prefixDone) && forall j :: 0 <= j < s ==> !frames[j].prefixDone
  }

  /** One rule on one value. */
  predicate Allows(rule: Rule, x: int) {
    && (rule.Exactly? ==> x == rule.value)
    && (rule.OneOf? ==> exists i :: 0 <= i < |rule.values| && rule.values[i] == x)
    && (rule.Between? ==> !(x < rule.minimum) && !(x > rule.maximum))
  }

  predicate Obeys(state: Observation, rules: Constraints) {
    forall key :: key in rules ==> Allows(rules[key], At(state, key))
  }

  function TickByte(c: Config, frames: seq<Frame>, k: nat): Byte
    requires k < |frames|
  {
    At(frames[k].state, c.tick) % 256
  }

  /** The counter's step from the frame before, around 256. */
  function TickStep(c: Config, frames: seq<Frame>, k: nat): nat
    requires 0 < k < |frames|
  {
    (TickByte(c, frames, k) - TickByte(c, frames, k - 1)) % 256
  }

  predicate Jumps(c: Config, frames: seq<Frame>, k: nat)
    requires 0 < k < |frames|
  {
    TickStep(c, frames, k) > c.counterDelta
  }

  /** Ticks that pass on frame `k`: none on a jump. */
  function Passed(c: Config, frames: seq<Frame>, k: nat): nat
    requires 0 < k < |frames|
  {
    if Jumps(c, frames, k) then 0 else TickStep(c, frames, k)
  }

  /** Ticks from the end of the prefix to frame `k`. */
  function TicksTo(c: Config, frames: seq<Frame>, s: nat, k: nat): nat
    requires s <= k < |frames|
  {
    if k == s then 0 else TicksTo(c, frames, s, k - 1) + Passed(c, frames, k)
  }

  predicate JumpAt(c: Config, frames: seq<Frame>, s: nat, k: nat, j: int)
    requires s < k <= |frames|
  {
    s < j < k && Jumps(c, frames, j)
  }

  ghost predicate JumpedBefore(c: Config, frames: seq<Frame>, s: nat, k: nat)
    requires s < k <= |frames|
  {
    exists j :: JumpAt(c, frames, s, k, j)
  }

  // ----- what a frame must be -----

  /** A jump is tolerated once, in the reset phase, between the profiled states. */
  ghost predicate Tolerated(c: Config, frames: seq<Frame>, s: nat, i: nat, k: nat)
    requires s < k < |frames|
  {
    && i == c.resetPhase && TickByte(c, frames, k) == c.resetDestination
    && Obeys(frames[k - 1].state, c.resetPrevious) && Obeys(frames[k].state, c.resetCurrent)
    && !JumpedBefore(c, frames, s, k)
  }

  /** The counter has stood still for more frames than allowed. */
  ghost predicate Stalls(c: Config, frames: seq<Frame>, s: nat, k: nat)
    requires s < k < |frames|
  {
    k - s > c.stallFrames && forall j: nat :: k - c.stallFrames <= j <= k ==> TickStep(c, frames, j) == 0
  }

  /** Neither a fatal observation nor one that is not alive. */
  ghost predicate Alive(c: Config, frames: seq<Frame>, k: nat)
    requires k < |frames|
  {
    && (forall key :: key in c.fatal ==> !Allows(c.fatal[key], At(frames[k].state, key)))
    && Obeys(frames[k].state, c.alive)
  }

  function World(c: Config, frames: seq<Frame>, k: nat): int
    requires k < |frames|
  {
    At(frames[k].state, c.world)
  }

  predicate Within(x: int, y: int, bound: int) {
    -bound <= x - y <= bound
  }

  predicate CoordinatesAgree(c: Config, frames: seq<Frame>, k: nat)
    requires k < |frames|
  {
    Within(World(c, frames, k), At(frames[k].state, c.camera) + At(frames[k].state, c.screen), c.positionTolerance)
  }

  /** Since frame `e` the phase has been sighted, if it asks for that. */
  ghost predicate Sighted(c: Config, frames: seq<Frame>, i: nat, e: nat, k: nat)
    requires i < |c.phases| && e <= k < |frames|
  {
    c.phases[i].seen.Some? ==> exists j :: e < j <= k && Obeys(frames[j].state, c.phases[i].seen.value)
  }

  /** Frame `k` may leave phase `i`, entered on frame `e`. */
  ghost predicate Ready(c: Config, frames: seq<Frame>, s: nat, i: nat, e: nat, k: nat)
    requires i < |c.phases| && s <= e < k < |frames|
  {
    var spec := c.phases[i];
    && Sighted(c, frames, i, e, k) && CoordinatesAgree(c, frames, k)
    && TicksTo(c, frames, s, k) - TicksTo(c, frames, s, e) >= spec.minimumTicks
    && Obeys(frames[k].state, spec.finish)
    && (spec.minimumAdvance > 0 ==> World(c, frames, k) - World(c, frames, e) >= spec.minimumAdvance)
  }

  /** Every frame after `m` up to `k` may leave. */
  ghost predicate ReadySince(c: Config, frames: seq<Frame>, s: nat, i: nat, e: nat, m: nat, k: nat)
    requires i < |c.phases| && s <= e <= m <= k < |frames|
  {
    forall j: nat :: m < j <= k ==> Ready(c, frames, s, i, e, j)
  }

  /** How many frames after `m` up to `k` passed a tick. */
  function TickingFrames(c: Config, frames: seq<Frame>, m: nat, k: nat): nat
    requires m <= k < |frames|
  {
    if k == m then 0 else TickingFrames(c, frames, m, k - 1) + if Passed(c, frames, k) > 0 then 1 else 0
  }

  /** Frame `k` leaves phase `i`; the last phase only on a stretch of such frames with enough ticking ones. */
  ghost predicate Leaves(c: Config, frames: seq<Frame>, s: nat, i: nat, e: nat, k: nat)
    requires i < |c.phases| && s <= e < k < |frames|
  {
    && Ready(c, frames, s, i, e, k)
    && (i == |c.phases| - 1 ==> exists m: nat :: e <= m < k && ReadySince(c, frames, s, i, e, m, k) && TickingFrames(c, frames, m, k) >= c.samples)
  }

  /** Everything asked of frame `k` in phase `i`, entered on frame `e`. */
  ghost predicate Fits(c: Config, frames: seq<Frame>, s: nat, i: nat, e: nat, k: nat)
    requires i < |c.phases| && s <= e < k < |frames|
  {
    && At(frames[k].state, c.trap) == 0 && Alive(c, frames, k)
    && (Jumps(c, frames, k) ==> Tolerated(c, frames, s, i, k))
    && !Stalls(c, frames, s, k)
    && TicksTo(c, frames, s, k) <= c.extraTicks
    && Obeys(frames[k].state, c.phases[i].allowed)
    && TicksTo(c, frames, s, k) - TicksTo(c, frames, s, e) <= c.phases[i].maximumTicks
    && (i == c.resetPhase && Leaves(c, frames, s, i, e, k) ==> JumpedBefore(c, frames, s, k + 1))
  }

  // ----- whole sequences -----

  /** Phase `i`, entered on frame `es[i]`, is left on frame `es[i + 1]` and on none before, and its frames fit. */
  ghost predicate Passes(c: Config, frames: seq<Frame>, es: seq<nat>, i: nat)
    requires i + 1 < |es| && i < |c.phases|
  {
    && es[0] <= es[i] < es[i + 1] < |frames|
    && Leaves(c, frames, es[0], i, es[i], es[i + 1])
    && forall k: nat :: es[i] < k <= es[i + 1] ==>
         Fits(c, frames, es[0], i, es[i], k) && (k < es[i + 1] ==> !Leaves(c, frames, es[0], i, es[i], k))
  }

  /** The current phase, entered on the last of `es`, is not left before frame `n`, and its frames fit. */
  ghost predicate Stays(c: Config, frames: seq<Frame>, es: seq<nat>, n: nat)
    requires es != []
  {
    var i, e := |es| - 1, es[|es| - 1];
    && es[0] <= e < n <= |frames|
    && if i < |c.phases| then forall k: nat :: e < k < n ==> Fits(c, frames, es[0], i, e, k) && !Leaves(c, frames, es[0], i, e, k)
       else e == n - 1
  }

  /** The first `n` frames play: the phases are entered on the frames `es`, the first when the prefix ends. */
  ghost predicate Plays(c: Config, frames: seq<Frame>, s: nat, es: seq<nat>, n: nat) {
    && 1 <= |es| <= |c.phases| + 1 && es[0] == s < n <= |frames|
    && (forall k: nat :: k <= s ==> At(frames[k].state, c.trap) == 0)
    && (forall i :: 0 <= i < |es| - 1 ==> Passes(c, frames, es, i))
    && Stays(c, frames, es, n)
  }

  // ----- what the runner holds -----

  lemma ObeysIsSatisfies(state: Observation, rules: Constraints)
    ensures Obeys(state, rules) <==> Satisfies(state, rules)
  {
    forall key | key in rules
      ensures Allows(rules[key], At(state, key)) <==> Meets(At(state, key), rules[key])
    {
      AllowsIsMeets(rules[key], At(state, key));
    }
  }

  lemma AllowsIsMeets(rule: Rule, x: int)
    ensures Allows(rule, x) <==> Meets(x, rule)
  {
  }

  lemma AliveIff(c: Config, frames: seq<Frame>, k: nat)
    requires k < |frames|
    ensures Alive(c, frames, k) <==> !Fatal(c, frames[k].state)
  {
    hide Allows, Meets;
    var state := frames[k].state;
    ObeysIsSatisfies(state, c.alive);
    forall key | key in c.fatal
      ensures Allows(c.fatal[key], At(state, key)) <==> Meets(At(state, key), c.fatal[key])
    {
      AllowsIsMeets(c.fatal[key], At(state, key));
    }
  }

  /** Exactly the last `lag` frames left the counter where it was. */
  ghost predicate HoldsLag(c: Config, frames: seq<Frame>, s: nat, k: nat, lag: nat)
    requires s <= k < |frames|
  {
    && lag <= k - s
    && (forall j: nat :: k - lag < j <= k ==> TickStep(c, frames, j) == 0)
    && (lag < k - s ==> TickStep(c, frames, k - lag) > 0)
  }

  /** The confirmations are the ticking frames of the longest stretch up to frame `k` that may leave. */
  ghost predicate HoldsConfirmed(c: Config, frames: seq<Frame>, s: nat, i: nat, e: nat, k: nat, confirmed: nat)
    requires i < |c.phases| && s <= e <= k < |frames|
  {
    exists m: nat :: Stretch(c, frames, s, i, e, m, k) && TickingFrames(c, frames, m, k) == confirmed
  }

  ghost predicate Stretch(c: Config, frames: seq<Frame>, s: nat, i: nat, e: nat, m: nat, k: nat)
    requires i < |c.phases| && s <= e <= k < |frames|
  {
    e <= m <= k && ReadySince(c, frames, s, i, e, m, k) && (m > e ==> !Ready(c, frames, s, i, e, m))
  }

  ghost predicate HoldsCursor(c: Config, frames: seq<Frame>, s: nat, e: nat, n: nat, t: Runner)
    requires s <= e < n <= |frames|
  {
    && t.ticks == TicksTo(c, frames, s, n - 1) && t.phaseTick == TicksTo(c, frames, s, e)
    && t.previous == TickByte(c, frames, n - 1) && t.previousState == frames[n - 1].state
    && t.anchor == World(c, frames, e)
    && t.resets == (if JumpedBefore(c, frames, s, n) then 1 else 0)
    && HoldsLag(c, frames, s, n - 1, t.lag)
  }

  ghost predicate HoldsPhase(c: Config, frames: seq<Frame>, s: nat, i: nat, e: nat, n: nat, t: Runner)
    requires i < |c.phases| && s <= e < n <= |frames|
  {
    && (t.seen <==> e < n - 1 && Sighted(c, frames, i, e, n - 1))
    && HoldsConfirmed(c, frames, s, i, e, n - 1, t.confirmed)
  }

  /** The runner in phase `i`, entered on frame `e`, after frame `n - 1`. */
  ghost predicate Holds(c: Config, frames: seq<Frame>, s: nat, i: nat, e: nat, n: nat, t: Runner)
    requires s <= e < n <= |frames|
  {
    t.index == i && HoldsCursor(c, frames, s, e, n, t) && (i < |c.phases| ==> HoldsPhase(c, frames, s, i, e, n, t))
  }

  lemma JumpedMore(c: Config, frames: seq<Frame>, s: nat, n: nat)
    requires s < n < |frames|
    ensures JumpedBefore(c, frames, s, n + 1) <==> JumpedBefore(c, frames, s, n) || Jumps(c, frames, n)
  {
    if JumpedBefore(c, frames, s, n) {
      var j :| JumpAt(c, frames, s, n, j);
      assert JumpAt(c, frames, s, n + 1, j);
    }
    if Jumps(c, frames, n) {
      assert JumpAt(c, frames, s, n + 1, n);
    }
    if JumpedBefore(c, frames, s, n + 1) {
      var j :| JumpAt(c, frames, s, n + 1, j);
      assert j < n ==> JumpAt(c, frames, s, n, j);
    }
  }

  lemma ElapsedIff(c: Config, frames: seq<Frame>, s: nat, e: nat, n: nat, t: Runner)
    requires c.Valid() && s <= e < n < |frames| && HoldsCursor(c, frames, s, e, n, t) && 0 <= t.index
    ensures Elapsed(c, t, frames[n].state).Ok? <==> (Jumps(c, frames, n) ==> Tolerated(c, frames, s, t.index, n))
    ensures Elapsed(c, t, frames[n].state).Ok? ==> Elapsed(c, t, frames[n].state).value == Passed(c, frames, n)
    ensures Elapsed(c, t, frames[n].state).Ok? ==> (IsReset(c, t, frames[n].state) <==> Jumps(c, frames, n))
  {
    hide HoldsLag, Satisfies, Obeys, TicksTo, JumpedBefore;
    ObeysIsSatisfies(frames[n - 1].state, c.resetPrevious);
    ObeysIsSatisfies(frames[n].state, c.resetCurrent);
    assert WrappedDelta(t.previous, ByteAt(frames[n].state, c.tick)) == TickStep(c, frames, n);
  }

  lemma LagIff(c: Config, frames: seq<Frame>, s: nat, n: nat, lag: nat, next: nat)
    requires s < n < |frames| && HoldsLag(c, frames, s, n - 1, lag)
    requires next == if TickStep(c, frames, n) > 0 then 0 else lag + 1
    ensures HoldsLag(c, frames, s, n, next)
    ensures next > c.stallFrames <==> Stalls(c, frames, s, n)
  {
    if next > c.stallFrames {
      assert forall j: nat :: n - next < j <= n ==> TickStep(c, frames, j) == 0;
    }
    if next <= c.stallFrames < n - s {
      assert TickStep(c, frames, n - next) > 0;
      assert !Stalls(c, frames, s, n);
    }
  }

  /** The clock accepts a frame exactly when it fits, apart from leaving, and holds the history one frame longer. */
  ghost predicate FitsClock(c: Config, frames: seq<Frame>, s: nat, i: nat, e: nat, k: nat)
    requires i < |c.phases| && s <= e < k < |frames|
  {
    && (Jumps(c, frames, k) ==> Tolerated(c, frames, s, i, k))
    && !Stalls(c, frames, s, k)
    && TicksTo(c, frames, s, k) <= c.extraTicks
    && Obeys(frames[k].state, c.phases[i].allowed)
    && TicksTo(c, frames, s, k) - TicksTo(c, frames, s, e) <= c.phases[i].maximumTicks
  }

  /** What the clock leaves behind. */
  function Clocked(c: Config, frames: seq<Frame>, n: nat, t: Runner): Runner
    requires 0 < n < |frames|
  {
    t.(ticks := t.ticks + Passed(c, frames, n), previous := ByteAt(frames[n].state, c.tick), previousState := frames[n].state,
       lag := if TickStep(c, frames, n) > 0 then 0 else t.lag + 1,
       resets := if Jumps(c, frames, n) then t.resets + 1 else t.resets)
  }

  function SeenBy(c: Config, i: nat, t: Runner, state: Observation): bool
    requires i < |c.phases|
  {
    t.seen || c.phases[i].seen.None? || Satisfies(state, c.phases[i].seen.value)
  }

  lemma ClockedHolds(c: Config, frames: seq<Frame>, s: nat, e: nat, n: nat, t: Runner)
    requires c.Valid() && s <= e < n < |frames| && HoldsCursor(c, frames, s, e, n, t)
    requires Jumps(c, frames, n) ==> !JumpedBefore(c, frames, s, n)
    ensures HoldsCursor(c, frames, s, e, n + 1, Clocked(c, frames, n, t))
  {
    hide HoldsLag, JumpedBefore;
    JumpedMore(c, frames, s, n);
    LagIff(c, frames, s, n, t.lag, if TickStep(c, frames, n) > 0 then 0 else t.lag + 1);
  }

  lemma TickIff(c: Config, frames: seq<Frame>, s: nat, i: nat, e: nat, n: nat, t: Runner)
    requires c.Valid() && s <= e < n < |frames| && i < |c.phases| && t.index == i && HoldsCursor(c, frames, s, e, n, t)
    ensures Tick(c, t, frames[n].state).Ok? <==> FitsClock(c, frames, s, i, e, n)
    ensures Tick(c, t, frames[n].state).Ok? ==>
              && Tick(c, t, frames[n].state).value == Clocked(c, frames, n, t).(seen := SeenBy(c, i, t, frames[n].state))
              && HoldsCursor(c, frames, s, e, n + 1, Clocked(c, frames, n, t))
  {
    hide HoldsLag, JumpedBefore, Elapsed, IsReset, Satisfies, Obeys, Stalls;
    ElapsedIff(c, frames, s, e, n, t);
    ObeysIsSatisfies(frames[n].state, c.phases[i].allowed);
    LagIff(c, frames, s, n, t.lag, if TickStep(c, frames, n) > 0 then 0 else t.lag + 1);
    assert TicksTo(c, frames, s, n) == TicksTo(c, frames, s, n - 1) + Passed(c, frames, n);
    if Elapsed(c, t, frames[n].state).Ok? {
      ClockedHolds(c, frames, s, e, n, t);
    }
  }

  // ----- sightings and confirmations -----

  lemma SightedMore(c: Config, frames: seq<Frame>, i: nat, e: nat, n: nat, t: Runner)
    requires i < |c.phases| && e < n < |frames|
    requires t.seen <==> e < n - 1 && Sighted(c, frames, i, e, n - 1)
    ensures SeenBy(c, i, t, frames[n].state) <==> Sighted(c, frames, i, e, n)
  {
    hide Obeys, Satisfies;
    if c.phases[i].seen.Some? {
      ObeysIsSatisfies(frames[n].state, c.phases[i].seen.value);
    }
  }

  lemma QualifiesIff(c: Config, frames: seq<Frame>, s: nat, i: nat, e: nat, n: nat, r: Runner)
    requires i < |c.phases| && s <= e < n < |frames| && HoldsCursor(c, frames, s, e, n + 1, r)
    requires r.seen <==> Sighted(c, frames, i, e, n)
    ensures Qualifies(c, r, c.phases[i], frames[n].state) <==> Ready(c, frames, s, i, e, n)
  {
    hide Obeys, Satisfies, HoldsLag, JumpedBefore, TicksTo, Sighted;
    ObeysIsSatisfies(frames[n].state, c.phases[i].finish);
  }

  /** A longer stretch holds at least as many ticking frames. */
  lemma {:induction false} LongerTicksMore(c: Config, frames: seq<Frame>, m: nat, m': nat, k: nat)
    requires m <= m' <= k < |frames|
    ensures TickingFrames(c, frames, m, k) >= TickingFrames(c, frames, m', k)
    decreases k
  {
    if m' < k {
      LongerTicksMore(c, frames, m, m', k - 1);
    }
  }

  /** The longest stretch decides. */
  lemma LeavesByStretch(c: Config, frames: seq<Frame>, s: nat, i: nat, e: nat, m: nat, k: nat)
    requires c.Valid() && i < |c.phases| && s <= e < k < |frames| && Stretch(c, frames, s, i, e, m, k) && Ready(c, frames, s, i, e, k)
    ensures Leaves(c, frames, s, i, e, k) <==> (i == |c.phases| - 1 ==> TickingFrames(c, frames, m, k) >= c.samples)
  {
    hide Ready;
    if i == |c.phases| - 1 && Leaves(c, frames, s, i, e, k) {
      var m': nat :| e <= m' < k && ReadySince(c, frames, s, i, e, m', k) && TickingFrames(c, frames, m', k) >= c.samples;
      assert m <= m';
      LongerTicksMore(c, frames, m, m', k);
    }
  }

  /** One more frame that may leave lengthens the stretch. */
  lemma StretchMore(c: Config, frames: seq<Frame>, s: nat, i: nat, e: nat, n: nat, confirmed: nat) returns (m: nat)
    requires i < |c.phases| && s <= e < n < |frames| && HoldsConfirmed(c, frames, s, i, e, n - 1, confirmed) && Ready(c, frames, s, i, e, n)
    ensures m <= n && Stretch(c, frames, s, i, e, m, n)
    ensures TickingFrames(c, frames, m, n) == confirmed + if Passed(c, frames, n) > 0 then 1 else 0
  {
    hide Ready, Passed;
    m :| Stretch(c, frames, s, i, e, m, n - 1) && TickingFrames(c, frames, m, n - 1) == confirmed;
  }

  lemma StretchBroken(c: Config, frames: seq<Frame>, s: nat, i: nat, e: nat, n: nat)
    requires i < |c.phases| && s <= e <= n < |frames| && (e == n || !Ready(c, frames, s, i, e, n))
    ensures HoldsConfirmed(c, frames, s, i, e, n, 0)
  {
    hide Ready;
    assert Stretch(c, frames, s, i, e, n, n);
  }

  lemma EnteringHolds(c: Config, frames: seq<Frame>, s: nat, i: nat, e: nat, n: nat, r: Runner, t: Runner)
    requires s <= e < n < |frames| && HoldsCursor(c, frames, s, e, n + 1, r)
    requires t == r.(index := i, phaseTick := r.ticks, anchor := World(c, frames, n), seen := false, confirmed := 0)
    ensures Holds(c, frames, s, i, n, n + 1, t)
  {
    hide HoldsLag, JumpedBefore, TicksTo, HoldsConfirmed;
    if i < |c.phases| {
      StretchBroken(c, frames, s, i, n, n);
    }
  }

  /** Leaving a phase, or counting towards it. */
  lemma ConfirmIff(c: Config, frames: seq<Frame>, s: nat, i: nat, e: nat, n: nat, r: Runner)
    requires c.Valid() && i < |c.phases| && s <= e < n < |frames| && r.index == i && HoldsCursor(c, frames, s, e, n + 1, r)
    requires (r.seen <==> Sighted(c, frames, i, e, n)) && HoldsConfirmed(c, frames, s, i, e, n - 1, r.confirmed)
    ensures var done := Confirm(c, r, Passed(c, frames, n) > 0, frames[n].state);
            && (done.Ok? <==> (i == c.resetPhase && Leaves(c, frames, s, i, e, n) ==> JumpedBefore(c, frames, s, n + 1)))
            && (done.Ok? ==> if Leaves(c, frames, s, i, e, n) then Holds(c, frames, s, i + 1, n, n + 1, done.value)
                             else Holds(c, frames, s, i, e, n + 1, done.value))
  {
    hide HoldsLag, JumpedBefore, TicksTo, Sighted, Ready, Stretch, Qualifies, Passed, TickingFrames, Holds, Leaves, HoldsConfirmed;
    QualifiesIff(c, frames, s, i, e, n, r);
    if Ready(c, frames, s, i, e, n) {
      var m := StretchMore(c, frames, s, i, e, n, r.confirmed);
      LeavesByStretch(c, frames, s, i, e, m, n);
      var counted := r.(confirmed := TickingFrames(c, frames, m, n));
      if Leaves(c, frames, s, i, e, n) {
        if !(i == c.resetPhase && counted.resets != 1) {
          EnteringHolds(c, frames, s, i + 1, e, n, counted, Advance(c, counted, frames[n].state).value);
        }
      } else {
        StayingHolds(c, frames, s, i, e, n, counted, m);
      }
    } else {
      StretchBroken(c, frames, s, i, e, n);
      NotLeaving(c, frames, s, i, e, n);
      StayingHolds(c, frames, s, i, e, n, r.(confirmed := 0), n);
    }
  }

  lemma NotLeaving(c: Config, frames: seq<Frame>, s: nat, i: nat, e: nat, n: nat)
    requires i < |c.phases| && s <= e < n < |frames| && !Ready(c, frames, s, i, e, n)
    ensures !Leaves(c, frames, s, i, e, n)
    ensures Stretch(c, frames, s, i, e, n, n) && TickingFrames(c, frames, n, n) == 0
  {
  }

  lemma StayingHolds(c: Config, frames: seq<Frame>, s: nat, i: nat, e: nat, n: nat, r: Runner, m: nat)
    requires i < |c.phases| && s <= e < n < |frames| && r.index == i && HoldsCursor(c, frames, s, e, n + 1, r)
    requires r.seen <==> Sighted(c, frames, i, e, n)
    requires Stretch(c, frames, s, i, e, m, n) && m <= n && r.confirmed == TickingFrames(c, frames, m, n)
    ensures Holds(c, frames, s, i, e, n + 1, r)
  {
    hide HoldsLag, JumpedBefore, TicksTo, Sighted, Stretch;
  }

  // ----- one frame -----

  /** A frame after the prefix. */
  lemma FrameIff(c: Config, frames: seq<Frame>, s: nat, i: nat, e: nat, n: nat, t: Runner)
    requires c.Valid() && i < |c.phases| && s <= e < n < |frames| && Holds(c, frames, s, i, e, n, t)
    ensures Update(c, t, frames[n]).Ok? <==> Fits(c, frames, s, i, e, n)
    ensures Update(c, t, frames[n]).Ok? ==>
              if Leaves(c, frames, s, i, e, n) then Holds(c, frames, s, i + 1, n, n + 1, Update(c, t, frames[n]).value)
              else Holds(c, frames, s, i, e, n + 1, Update(c, t, frames[n]).value)
  {
    hide HoldsLag, JumpedBefore, TicksTo, Sighted, Leaves, Tick, Confirm, SeenBy, Alive, Fatal, Passed, HoldsConfirmed, Stalls, Tolerated, Obeys, Jumps;
    AliveIff(c, frames, n);
    TickIff(c, frames, s, i, e, n, t);
    if Tick(c, t, frames[n].state).Ok? {
      var r := Tick(c, t, frames[n].state).value;
      SightedMore(c, frames, i, e, n, t);
      SeenAside(c, frames, s, e, n, Clocked(c, frames, n, t), r);
      ConfirmIff(c, frames, s, i, e, n, r);
    }
  }

  lemma SeenAside(c: Config, frames: seq<Frame>, s: nat, e: nat, n: nat, t: Runner, r: Runner)
    requires s <= e < n < |frames| && HoldsCursor(c, frames, s, e, n + 1, t) && r == t.(seen := r.seen)
    ensures HoldsCursor(c, frames, s, e, n + 1, r)
  {
  }

  // ----- whole runs -----

  lemma PrefixFrame(c: Config, frames: seq<Frame>, s: nat, n: nat)
    requires c.Valid() && PrefixEnds(frames, s) && n <= s && n < |frames|
    ensures Update(c, START, frames[n]).Ok? <==> At(frames[n].state, c.trap) == 0
    ensures At(frames[n].state, c.trap) == 0 ==>
              if n < s then Update(c, START, frames[n]).value == START
              else Holds(c, frames, s, 0, s, s + 1, Update(c, START, frames[n]).value)
  {
    if n == s && At(frames[n].state, c.trap) == 0 {
      StretchBroken(c, frames, s, 0, s, s);
      NothingJumped(c, frames, s);
    }
  }

  lemma NothingJumped(c: Config, frames: seq<Frame>, s: nat)
    requires s < |frames|
    ensures !JumpedBefore(c, frames, s, s + 1)
  {
  }

  /** After the prefix the runner holds the phase entered last. */
  ghost predicate HoldsPlay(c: Config, frames: seq<Frame>, s: nat, es: seq<nat>, n: nat, t: Runner) {
    Plays(c, frames, s, es, n) && Holds(c, frames, s, |es| - 1, es[|es| - 1], n, t)
  }

  lemma PassesStill(c: Config, frames: seq<Frame>, es: seq<nat>, e: nat, i: nat)
    requires i + 1 < |es| && i < |c.phases| && Passes(c, frames, es, i)
    ensures Passes(c, frames, es + [e], i)
  {
    hide Fits, Leaves;
  }

  /** One more frame plays on, or enters the next phase. */
  lemma PlayOn(c: Config, frames: seq<Frame>, s: nat, es: seq<nat>, n: nat) returns (es': seq<nat>)
    requires Plays(c, frames, s, es, n) && n < |frames| && |es| <= |c.phases| && Fits(c, frames, s, |es| - 1, es[|es| - 1], n)
    ensures es' == if Leaves(c, frames, s, |es| - 1, es[|es| - 1], n) then es + [n] else es
    ensures Plays(c, frames, s, es', n + 1)
  {
    hide Fits, Leaves;
    var i, e := |es| - 1, es[|es| - 1];
    es' := es;
    if Leaves(c, frames, s, i, e, n) {
      es' := es + [n];
      forall j | 0 <= j < |es'| - 1
        ensures Passes(c, frames, es', j)
      {
        if j < |es| - 1 {
          PassesStill(c, frames, es, n, j);
        }
      }
    }
  }

  /** What the frames before `n` hold, whether the prefix has ended or not. */
  ghost predicate Held(c: Config, frames: seq<Frame>, s: nat, es: seq<nat>, n: nat, t: Runner)
    requires n <= |frames|
  {
    if n <= s then es == [] && t == START && forall k: nat :: k < n ==> At(frames[k].state, c.trap) == 0
    else HoldsPlay(c, frames, s, es, n, t)
  }

  /** A run holds the entries of its phases. */
  lemma {:induction false} RunHolds(c: Config, frames: seq<Frame>, s: nat, trace: seq<Runner>, n: nat) returns (es: seq<nat>)
    requires c.Valid() && PrefixEnds(frames, s) && Run(c, frames, trace) && n <= |frames|
    ensures Held(c, frames, s, es, n, trace[n])
  {
    hide Update, Fits, Leaves, Holds;
    if n == 0 {
      es := [];
    } else {
      es := RunHolds(c, frames, s, trace, n - 1);
      assert Follows(c, frames, trace, n - 1);
      es := HeldMore(c, frames, s, es, n - 1, trace[n - 1], trace[n]);
    }
  }

  lemma HeldMore(c: Config, frames: seq<Frame>, s: nat, es: seq<nat>, n: nat, t: Runner, r: Runner) returns (es': seq<nat>)
    requires c.Valid() && PrefixEnds(frames, s) && n < |frames| && Held(c, frames, s, es, n, t)
    requires t.index < |c.phases| && Update(c, t, frames[n]) == Ok(r)
    ensures Held(c, frames, s, es', n + 1, r)
  {
    hide Update, Fits, Leaves, Passes;
    es' := es;
    if n <= s {
      PrefixFrame(c, frames, s, n);
      if n == s {
        es' := [s];
      }
    } else {
      var i, e := |es| - 1, es[|es| - 1];
      HoldsIndex(c, frames, s, i, e, n, t);
      FrameIff(c, frames, s, i, e, n, t);
      es' := PlayOn(c, frames, s, es, n);
    }
  }

  lemma HoldsIndex(c: Config, frames: seq<Frame>, s: nat, i: nat, e: nat, n: nat, t: Runner)
    requires s <= e < n <= |frames| && Holds(c, frames, s, i, e, n, t)
    ensures t.index == i
  {
  }

  // ----- and conversely -----

  /** The first `n` frames are accepted: part of the prefix, or a play. */
  ghost predicate Playing(c: Config, frames: seq<Frame>, s: nat, es: seq<nat>, n: nat)
    requires n <= |frames|
  {
    if n <= s then es == [] && forall k: nat :: k < n ==> At(frames[k].state, c.trap) == 0
    else Plays(c, frames, s, es, n)
  }

  /** A play without its last frame. */
  lemma Shorter(c: Config, frames: seq<Frame>, s: nat, es: seq<nat>, n: nat) returns (before: seq<nat>)
    requires Plays(c, frames, s, es, n + 1) && s < n
    ensures Plays(c, frames, s, before, n) && |before| <= |c.phases|
    ensures Fits(c, frames, s, |before| - 1, before[|before| - 1], n)
    ensures es == if Leaves(c, frames, s, |before| - 1, before[|before| - 1], n) then before + [n] else before
  {
    hide Fits, Leaves;
    var last := |es| - 1;
    if es[last] == n {
      before := es[..last];
      assert Passes(c, frames, es, last - 1);
      forall i | 0 <= i < |before| - 1
        ensures Passes(c, frames, before, i)
      {
        assert Passes(c, frames, es, i);
      }
    } else {
      before := es;
    }
  }

  /** The runner goes along with one more frame of a play. */
  lemma StepAlong(c: Config, frames: seq<Frame>, s: nat, es: seq<nat>, n: nat, before: seq<nat>, t: Runner)
    requires c.Valid() && PrefixEnds(frames, s) && n < |frames| && Playing(c, frames, s, es, n + 1)
    requires if n <= s then before == [] else
               && Plays(c, frames, s, before, n) && |before| <= |c.phases|
               && Fits(c, frames, s, |before| - 1, before[|before| - 1], n)
               && es == if Leaves(c, frames, s, |before| - 1, before[|before| - 1], n) then before + [n] else before
    requires Held(c, frames, s, before, n, t)
    ensures t.index < |c.phases| && Update(c, t, frames[n]).Ok?
    ensures Held(c, frames, s, es, n + 1, Update(c, t, frames[n]).value)
  {
    hide Update, Fits, Leaves, Passes, Holds;
    if n <= s {
      PrefixFrame(c, frames, s, n);
      if n == s {
        OnlyEntry(c, frames, s, es);
      }
    } else {
      var i, e := |before| - 1, before[|before| - 1];
      HoldsIndex(c, frames, s, i, e, n, t);
      FrameIff(c, frames, s, i, e, n, t);
    }
  }

  lemma EntriesIncrease(c: Config, frames: seq<Frame>, s: nat, es: seq<nat>, n: nat, i: nat)
    requires Plays(c, frames, s, es, n) && i + 1 < |es|
    ensures s <= es[i] < es[i + 1]
  {
    hide Fits, Leaves;
    assert Passes(c, frames, es, i);
  }

  lemma OnlyEntry(c: Config, frames: seq<Frame>, s: nat, es: seq<nat>)
    requires c.Valid() && Plays(c, frames, s, es, s + 1)
    ensures es == [s]
  {
    hide Fits, Leaves;
    if |es| > 1 {
      EntriesIncrease(c, frames, s, es, s + 1, |es| - 2);
    }
  }

  /** The runners of a play exist, because no frame is refused. */
  lemma {:induction false} Replay(c: Config, frames: seq<Frame>, s: nat, es: seq<nat>, n: nat) returns (trace: seq<Runner>)
    requires c.Valid() && PrefixEnds(frames, s) && n <= |frames| && Playing(c, frames, s, es, n)
    ensures |trace| == n + 1 && trace[0] == START && Held(c, frames, s, es, n, trace[n])
    ensures forall k :: 0 <= k < n ==> Replays(c, frames, trace, k)
    decreases n
  {
    hide Update, Fits, Leaves, Plays, HoldsPlay;
    trace := [START];
    if n > 0 {
      var before: seq<nat> := [];
      if s < n - 1 {
        before := Shorter(c, frames, s, es, n - 1);
      } else if n - 1 == s {
        TrapsBefore(c, frames, s, es, n);
      }
      trace := Replay(c, frames, s, before, n - 1);
      StepAlong(c, frames, s, es, n - 1, before, trace[n - 1]);
      var longer := trace + [Update(c, trace[n - 1], frames[n - 1]).value];
      forall k | 0 <= k < n
        ensures Replays(c, frames, longer, k)
      {
        assert k < n - 1 ==> Replays(c, frames, trace, k);
      }
      trace := longer;
    }
  }

  lemma TrapsBefore(c: Config, frames: seq<Frame>, s: nat, es: seq<nat>, n: nat)
    requires Plays(c, frames, s, es, n) && n == s + 1
    ensures forall k: nat :: k < s ==> At(frames[k].state, c.trap) == 0
  {
  }

  ghost predicate Replays(c: Config, frames: seq<Frame>, trace: seq<Runner>, k: nat)
    requires k < |frames| && k + 1 < |trace|
  {
    trace[k].index < |c.phases| && Update(c, trace[k], frames[k]) == Ok(trace[k + 1])
  }

  /** Some run over the frames ends in phase `index`. */
  ghost predicate Reaches(c: Config, frames: seq<Frame>, index: int) {
    exists trace: seq<Runner> :: Run(c, frames, trace) && trace[|frames|].index == index
  }

  /**
   Exactly which sequences of frames the runner accepts, and how far they get: those that play,
   each phase being left on the first frame that may leave it. All phases are left exactly when
   the run is complete.
   */
  lemma ReachesIff(c: Config, frames: seq<Frame>, s: nat, index: nat)
    requires c.Valid() && PrefixEnds(frames, s) && s < |frames|
    ensures Reaches(c, frames, index) <==> exists es: seq<nat> :: |es| == index + 1 && Plays(c, frames, s, es, |frames|)
  {
    hide Update, Plays, Holds, Fits, Leaves;
    var n := |frames|;
    if Reaches(c, frames, index) {
      var trace: seq<Runner> :| Run(c, frames, trace) && trace[n].index == index;
      var es := RunHolds(c, frames, s, trace, n);
      IndexOfPlay(c, frames, s, es, n, trace[n]);
    }
    if es: seq<nat> :| |es| == index + 1 && Plays(c, frames, s, es, n) {
      var trace := Replay(c, frames, s, es, n);
      forall k | 0 <= k < n
        ensures Follows(c, frames, trace, k)
      {
        assert Replays(c, frames, trace, k);
      }
      IndexOfPlay(c, frames, s, es, n, trace[n]);
      assert Run(c, frames, trace);
    }
  }

  lemma IndexOfPlay(c: Config, frames: seq<Frame>, s: nat, es: seq<nat>, n: nat, t: Runner)
    requires HoldsPlay(c, frames, s, es, n, t)
    ensures t.index == |es| - 1
  {
  }
}
