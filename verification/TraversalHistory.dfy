/**
 The ordered traversal as a property of the frames alone: which sequences of frames are
 accepted, and which complete a run, with no cursor and no counters carried along.
 */
module TraversalHistory {
  import opened Bytes
  import opened CounterDelta
  import opened PhaseMembership
  import opened Traversal

  // ----- reading the frames -----

  /** `s` is the first frame at the stage, or the number of frames when there is none. */
  ghost predicate FirstStage(frames: seq<Frame>, s: nat) {
    s <= |frames| && (s < |frames| ==> frames[s].staged) && forall j :: 0 <= j < s ==> !frames[j].staged
  }

  /** Frame `k` has an allowed value of every observation phase `p` constrains. */
  ghost predicate InPhase(c: Config, frames: seq<Frame>, k: nat, p: int)
    requires k < |frames|
  {
    0 <= p < |c.phases| && forall key :: key in c.phases[p] ==> At(frames[k].state, key) in c.phases[p][key]
  }

  function TickByte(c: Config, frames: seq<Frame>, k: nat): Byte
    requires k < |frames|
  {
    At(frames[k].state, c.tick) % 256
  }

  /** The counter's step from the frame before, around 256. */
  function TickStep(c: Config, frames: seq<Frame>, k: nat): nat
    requires 0 < k < |frames|
  {
    (TickByte(c, frames, k) - TickByte(c, frames, k - 1)) % 256
  }

  predicate Jumps(c: Config, frames: seq<Frame>, k: nat)
    requires 0 < k < |frames|
  {
    TickStep(c, frames, k) > c.counterDelta
  }

  /** Ticks that pass on frame `k`: none on a jump. */
  function Passed(c: Config, frames: seq<Frame>, k: nat): nat
    requires 0 < k < |frames|
  {
    if Jumps(c, frames, k) then 0 else TickStep(c, frames, k)
  }

  /** Ticks from the first staged frame to frame `k`. */
  function TicksTo(c: Config, frames: seq<Frame>, s: nat, k: nat): nat
    requires s <= k < |frames|
  {
    if k == s then 0 else TicksTo(c, frames, s, k - 1) + Passed(c, frames, k)
  }

  // ----- what a frame must be -----

  /** A counter jump is tolerated once, in the profiled phase and state. */
  ghost predicate Tolerated(c: Config, frames: seq<Frame>, s: nat, k: nat)
    requires s < k < |frames|
  {
    && InPhase(c, frames, k, c.resetPhase)
    && TickByte(c, frames, k) == c.resetDestination
    && (forall key :: key in c.resetExpected ==> At(frames[k].state, key) == c.resetExpected[key])
    && !JumpedBefore(c, frames, s, k)
  }

  ghost predicate JumpedBefore(c: Config, frames: seq<Frame>, s: nat, k: nat)
    requires s < k <= |frames|
  {
    exists j :: JumpAt(c, frames, s, k, j)
  }

  predicate JumpAt(c: Config, frames: seq<Frame>, s: nat, k: nat, j: int)
    requires s < k <= |frames|
  {
    s < j < k && Jumps(c, frames, j)
  }

  /** No tick has passed for the whole stall limit. */
  ghost predicate Stalls(c: Config, frames: seq<Frame>, s: nat, k: nat)
    requires s < k < |frames|
  {
    k - s >= c.stallFrames && forall j: nat :: k - c.stallFrames < j <= k ==> Passed(c, frames, j) == 0
  }

  /** Every listed observation has moved its minimum from the first staged frame. */
  ghost predicate MovedEnough(c: Config, frames: seq<Frame>, s: nat, k: nat, p: int)
    requires s < |frames| && k < |frames| && 0 <= p < |c.minimumAdvance|
  {
    forall key :: key in c.minimumAdvance[p] ==> At(frames[k].state, key) >= At(frames[s].state, key) + c.minimumAdvance[p][key]
  }

  /** A frame after the first staged one, whose predecessor is in phase `p`, stays or enters the next phase, as `q` says. */
  ghost predicate Plays(c: Config, frames: seq<Frame>, s: nat, k: nat, p: int, q: int)
    requires |c.minimumAdvance| == |c.phases| && s < k < |frames|
  {
    && InPhase(c, frames, k - 1, p) && InPhase(c, frames, k, q) && (q == p || q == p + 1)
    && (Jumps(c, frames, k) ==> Tolerated(c, frames, s, k))
    && !Stalls(c, frames, s, k)
    && (q == p + 1 ==> MovedEnough(c, frames, s, k, q))
  }

  function DiagnosticByte(c: Config, frames: seq<Frame>, k: nat): Byte
    requires k < |frames|
  {
    At(frames[k].state, c.diagnosticField) % 256
  }

  /** The diagnostic counter's step; it starts at zero. */
  function DiagnosticStep(c: Config, frames: seq<Frame>, k: nat): nat
    requires k < |frames|
  {
    (DiagnosticByte(c, frames, k) - if k == 0 then 0 else DiagnosticByte(c, frames, k - 1)) % 256
  }

  /** When the diagnostic counts, it moves in small steps and only in the last phase. */
  ghost predicate DiagnosticFits(c: Config, frames: seq<Frame>, s: nat, k: nat)
    requires k < |frames|
  {
    c.useDiagnostic ==>
      && DiagnosticStep(c, frames, k) <= c.diagnosticDelta
      && (DiagnosticByte(c, frames, k) != 0 ==> s < k && InPhase(c, frames, k, |c.phases| - 1))
  }

  /** Everything asked of frame `k`, apart from completing the run. */
  ghost predicate Fits(c: Config, frames: seq<Frame>, s: nat, k: nat)
    requires |c.minimumAdvance| == |c.phases| && k < |frames|
  {
    && At(frames[k].state, c.trap) == 0
    && DiagnosticFits(c, frames, s, k)
    && (k == s ==> InPhase(c, frames, k, 0) && forall key :: key in c.initialExpected ==> At(frames[k].state, key) == c.initialExpected[key])
    && (s < k ==> exists p, q :: Plays(c, frames, s, k, p, q))
  }

  // ----- completing -----

  ghost predicate InLast(c: Config, frames: seq<Frame>, k: nat)
    requires k < |frames|
  {
    InPhase(c, frames, k, |c.phases| - 1)
  }

  /** The first frame after the stage began that is in the last phase. */
  ghost predicate RoomAt(c: Config, frames: seq<Frame>, s: nat, r: nat) {
    s < r < |frames| && InLast(c, frames, r) && forall j: nat :: s < j < r ==> !InLast(c, frames, j)
  }

  /** The first frame on which the diagnostic counter moves. */
  ghost predicate HitAt(c: Config, frames: seq<Frame>, h: nat) {
    h < |frames| && DiagnosticStep(c, frames, h) > 0 && forall j: nat :: j < h ==> DiagnosticStep(c, frames, j) == 0
  }

  /** Windows count from the frame that entered the last phase, or from the diagnostic's first move. */
  ghost predicate CountsFrom(c: Config, frames: seq<Frame>, s: nat, k: nat, e: nat) {
    && (exists r: nat :: r <= k && RoomAt(c, frames, s, r))
    && e <= k && if c.useDiagnostic then HitAt(c, frames, e) else RoomAt(c, frames, s, e)
  }

  function World(c: Config, frames: seq<Frame>, k: nat): int
    requires k < |frames|
  {
    At(frames[k].state, c.world)
  }

  function Camera(c: Config, frames: seq<Frame>, k: nat): int
    requires k < |frames|
  {
    At(frames[k].state, c.camera)
  }

  predicate Within(x: int, y: int, bound: int) {
    -bound <= x - y <= bound
  }

  /** Frame `k` is in the last phase, numbered from `earliest` on, and its coordinates agree. */
  ghost predicate Steady(c: Config, frames: seq<Frame>, k: nat, earliest: int)
    requires k < |frames|
  {
    && InLast(c, frames, k) && frames[k].number >= earliest
    && Within(World(c, frames, k), Camera(c, frames, k) + At(frames[k].state, c.screen), c.positionTolerance)
  }

  predicate Neighbors(c: Config, frames: seq<Frame>, k: nat)
    requires 0 < k < |frames|
  {
    && Within(World(c, frames, k - 1), World(c, frames, k), c.neighborDelta)
    && Within(Camera(c, frames, k - 1), Camera(c, frames, k), c.neighborDelta)
  }

  /** Frames `k - 2`, `k - 1` and `k` form a confirmed window. */
  ghost predicate WindowAt(c: Config, frames: seq<Frame>, s: nat, k: nat)
    requires k < |frames|
  {
    && s + 2 <= k
    && exists e: nat :: CountsFrom(c, frames, s, k, e) && WindowFrom(c, frames, k, frames[e].number)
  }

  ghost predicate WindowFrom(c: Config, frames: seq<Frame>, k: nat, earliest: int)
    requires 2 <= k < |frames|
  {
    && Steady(c, frames, k - 2, earliest) && Steady(c, frames, k - 1, earliest) && Steady(c, frames, k, earliest)
    && Neighbors(c, frames, k - 1) && Neighbors(c, frames, k)
  }

  /** The first confirmed window ends at frame `a`. */
  ghost predicate AnchorAt(c: Config, frames: seq<Frame>, s: nat, a: nat) {
    a < |frames| && WindowAt(c, frames, s, a) && forall j: nat :: j < a ==> !WindowAt(c, frames, s, j)
  }

  /** The window at `k` begins enough ticks after the anchor's middle, or the entry to the last phase, and lies far enough from the anchor. */
  ghost predicate FarFrom(c: Config, frames: seq<Frame>, s: nat, a: nat, k: nat)
    requires s + 2 <= a < k < |frames|
  {
    && (if c.useDiagnostic then TicksTo(c, frames, s, k - 2) - TicksTo(c, frames, s, a - 1) >= c.minimumTicks
        else exists r: nat :: r <= k - 2 && RoomAt(c, frames, s, r) && TicksTo(c, frames, s, k - 2) - TicksTo(c, frames, s, r) >= c.minimumTicks)
    && forall i: nat, j: nat :: k - 2 <= i <= k && a - 2 <= j <= a ==> World(c, frames, i) - World(c, frames, j) >= c.minimumMove
  }

  /** Frame `k` ends a window far enough from the anchor. */
  ghost predicate CompletesAt(c: Config, frames: seq<Frame>, s: nat, k: nat)
    requires k < |frames|
  {
    WindowAt(c, frames, s, k) && exists a: nat :: s + 2 <= a < k && AnchorAt(c, frames, s, a) && FarFrom(c, frames, s, a, k)
  }

  // ----- what the tracker holds -----

  /** Before the stage: nothing but the diagnostic byte, which has not moved. */
  ghost predicate HoldsBefore(c: Config, frames: seq<Frame>, n: nat, t: Tracker)
    requires n <= |frames|
  {
    && t == START
    && (c.useDiagnostic ==> forall j: nat :: j < n ==> DiagnosticByte(c, frames, j) == 0)
  }

  /** The phase, tick and stall bookkeeping after frame `n - 1`. */
  ghost predicate HoldsCursor(c: Config, frames: seq<Frame>, s: nat, n: nat, t: Tracker)
    requires s < n <= |frames|
  {
    && InPhase(c, frames, n - 1, t.index)
    && t.ticks == TicksTo(c, frames, s, n - 1)
    && t.previousTick == TickByte(c, frames, n - 1)
    && t.initial == frames[s].state
    && t.resets == (if JumpedBefore(c, frames, s, n) then 1 else 0)
    && HoldsLag(c, frames, s, n - 1, t.lag)
  }

  /** Exactly the last `lag` frames passed no tick. */
  ghost predicate HoldsLag(c: Config, frames: seq<Frame>, s: nat, k: nat, lag: nat)
    requires s <= k < |frames|
  {
    && lag <= k - s
    && (forall j: nat :: k - lag < j <= k ==> Passed(c, frames, j) == 0)
    && (lag < k - s ==> Passed(c, frames, k - lag) > 0)
  }

  /** The entry to the last phase. */
  ghost predicate HoldsRoom(c: Config, frames: seq<Frame>, s: nat, n: nat, t: Tracker)
    requires s < n <= |frames|
  {
    && (t.roomTick.Some? <==> t.index == c.Last())
    && match t.roomTick
       case None => forall j: nat :: s < j < n ==> !InLast(c, frames, j)
       case Some(tick) => exists r: nat :: r < n && RoomAt(c, frames, s, r) && tick == TicksTo(c, frames, s, r) && t.roomFrame == frames[r].number
  }

  /** The diagnostic byte, and the first frame it moved on. */
  ghost predicate HoldsDiagnostic(c: Config, frames: seq<Frame>, n: nat, t: Tracker)
    requires 0 < n <= |frames|
  {
    if !c.useDiagnostic then t.hit.None?
    else
      && t.previousDiagnostic == DiagnosticByte(c, frames, n - 1)
      && match t.hit
         case None => forall j: nat :: j < n ==> DiagnosticStep(c, frames, j) == 0
         case Some(number) => exists h: nat :: h < n && HitAt(c, frames, h) && number == frames[h].number
  }

  /** The row of frame `k`. */
  ghost predicate IsRow(c: Config, frames: seq<Frame>, s: nat, k: int, row: Row) {
    && s <= k < |frames| && row.frame == frames[k].number && row.state == frames[k].state
    && row.tick == TicksTo(c, frames, s, k) && InPhase(c, frames, k, row.phase)
  }

  /** The rows of consecutive frames, the last of which is frame `n - 1`. */
  ghost predicate AreRows(c: Config, frames: seq<Frame>, s: nat, n: int, rows: seq<Row>) {
    forall i :: 0 <= i < |rows| ==> IsRow(c, frames, s, n - |rows| + i, rows[i])
  }

  ghost predicate HoldsRows(c: Config, frames: seq<Frame>, s: nat, n: nat, t: Tracker)
    requires s < n <= |frames|
  {
    |t.recent| == (if n - s < 3 then n - s else 3) && AreRows(c, frames, s, n, t.recent)
  }

  ghost predicate HoldsAnchor(c: Config, frames: seq<Frame>, s: nat, n: nat, t: Tracker)
    requires s < n <= |frames|
  {
    match t.anchor
    case None => forall j: nat :: j < n ==> !WindowAt(c, frames, s, j)
    case Some(rows) => |rows| == 3 && exists a: nat :: a < n && AnchorAt(c, frames, s, a) && AreRows(c, frames, s, a + 1, rows)
  }

  ghost predicate Holds(c: Config, frames: seq<Frame>, s: nat, n: nat, t: Tracker)
    requires s <= |frames| && n <= |frames|
  {
    if n <= s then HoldsBefore(c, frames, n, t)
    else
      && HoldsCursor(c, frames, s, n, t) && HoldsRoom(c, frames, s, n, t) && HoldsDiagnostic(c, frames, n, t)
      && HoldsRows(c, frames, s, n, t) && HoldsAnchor(c, frames, s, n, t)
  }

  // ----- phases -----

  lemma InPhaseIsMember(c: Config, frames: seq<Frame>, k: nat, p: int)
    requires k < |frames|
    ensures InPhase(c, frames, k, p) <==> 0 <= p < |c.phases| && Member(c.phases[p], frames[k].state)
  {
  }

  lemma OnePhase(c: Config, frames: seq<Frame>, k: nat, p: int, q: int)
    requires c.Valid() && k < |frames| && InPhase(c, frames, k, p) && InPhase(c, frames, k, q)
    ensures p == q
  {
    NoStateInTwoPhases(c.phases, p, q, frames[k].state);
  }

  lemma {:induction false} MatchesNothing(phases: seq<Allowed>, state: Observation)
    requires forall i :: 0 <= i < |phases| ==> !Member(phases[i], state)
    ensures Matches(phases, state) == []
  {
    if phases != [] {
      var front := phases[..|phases| - 1];
      assert forall i :: 0 <= i < |front| ==> front[i] == phases[i];
      MatchesNothing(front, state);
    }
  }

  lemma {:induction false} MatchesOne(phases: seq<Allowed>, state: Observation, p: nat)
    requires p < |phases| && forall i :: 0 <= i < |phases| ==> (Member(phases[i], state) <==> i == p)
    ensures Matches(phases, state) == [p]
  {
    var n := |phases| - 1;
    var front := phases[..n];
    assert forall i :: 0 <= i < |front| ==> front[i] == phases[i];
    if p == n {
      MatchesNothing(front, state);
    } else {
      MatchesOne(front, state, p);
    }
  }

  /** The recogniser finds exactly one phase when the frame is in that phase. */
  lemma MatchesIff(c: Config, frames: seq<Frame>, k: nat, p: nat)
    requires c.Valid() && k < |frames|
    ensures Matches(c.phases, frames[k].state) == [p] <==> InPhase(c, frames, k, p)
  {
    var state := frames[k].state;
    InPhaseIsMember(c, frames, k, p);
    MatchesAre(c.phases, state);
    if InPhase(c, frames, k, p) {
      forall i | 0 <= i < |c.phases|
        ensures Member(c.phases[i], state) <==> i == p
      {
        if Member(c.phases[i], state) {
          NoStateInTwoPhases(c.phases, i, p, state);
        }
      }
      MatchesOne(c.phases, state, p);
    }
    if Matches(c.phases, state) == [p] {
      assert p in [p];
    }
  }

  // ----- one frame of the stage -----

  lemma ElapsedIff(c: Config, frames: seq<Frame>, s: nat, n: nat, t: Tracker, q: int)
    requires c.Valid() && s < n < |frames| && HoldsCursor(c, frames, s, n, t) && InPhase(c, frames, n, q)
    ensures Elapsed(c, t, q, frames[n].state).Ok? <==> (Jumps(c, frames, n) ==> Tolerated(c, frames, s, n))
    ensures Elapsed(c, t, q, frames[n].state).Ok? ==> Elapsed(c, t, q, frames[n].state).value == Passed(c, frames, n)
    ensures Elapsed(c, t, q, frames[n].state).Ok? ==> (IsReset(c, t, q, frames[n].state) <==> Jumps(c, frames, n))
  {
    hide HoldsLag, Member;
    if InPhase(c, frames, n, c.resetPhase) {
      OnePhase(c, frames, n, q, c.resetPhase);
    }
    assert WrappedDelta(t.previousTick, ByteAt(frames[n].state, c.tick)) == TickStep(c, frames, n);
  }

  lemma LagIff(c: Config, frames: seq<Frame>, s: nat, n: nat, lag: nat, next: nat)
    requires s < n < |frames| && HoldsLag(c, frames, s, n - 1, lag)
    requires next == if Passed(c, frames, n) > 0 then 0 else lag + 1
    ensures HoldsLag(c, frames, s, n, next)
    ensures next >= c.stallFrames <==> Stalls(c, frames, s, n)
  {
    if next >= c.stallFrames {
      assert forall j: nat :: n - next < j <= n ==> Passed(c, frames, j) == 0;
    }
    if next < c.stallFrames <= n - s {
      assert Passed(c, frames, n - next) > 0;
      assert !Stalls(c, frames, s, n);
    }
  }

  lemma MovedIff(c: Config, frames: seq<Frame>, s: nat, n: nat, t: Tracker, q: int)
    requires s < |frames| && n < |frames| && 0 <= q < |c.minimumAdvance| && t.initial == frames[s].state
    ensures Moved(c, t, q, frames[n].state) <==> MovedEnough(c, frames, s, n, q)
  {
  }

  lemma JumpedMore(c: Config, frames: seq<Frame>, s: nat, n: nat)
    requires s < n < |frames|
    ensures JumpedBefore(c, frames, s, n + 1) <==> JumpedBefore(c, frames, s, n) || Jumps(c, frames, n)
  {
    if JumpedBefore(c, frames, s, n) {
      var j :| JumpAt(c, frames, s, n, j);
      assert JumpAt(c, frames, s, n + 1, j);
    }
    if Jumps(c, frames, n) {
      assert JumpAt(c, frames, s, n + 1, n);
    }
    if JumpedBefore(c, frames, s, n + 1) {
      var j :| JumpAt(c, frames, s, n + 1, j);
      assert j < n ==> JumpAt(c, frames, s, n, j);
    }
  }

  /** The bookkeeping accepts a frame in phase `q` exactly when it plays, and holds the history one frame longer. */
  lemma AdvanceInPhase(c: Config, frames: seq<Frame>, s: nat, n: nat, t: Tracker, q: nat)
    requires c.Valid() && s < n < |frames| && HoldsCursor(c, frames, s, n, t) && InPhase(c, frames, n, q)
    ensures Advance(c, t, frames[n]).Ok? <==> Plays(c, frames, s, n, t.index, q)
    ensures Advance(c, t, frames[n]).Ok? ==>
              && Advance(c, t, frames[n]).value == AdvanceTo(c, t, frames[n], q, Passed(c, frames, n))
              && HoldsCursor(c, frames, s, n + 1, Advance(c, t, frames[n]).value)
  {
    hide Elapsed, InPhase, HoldsLag, Moved, MovedEnough, Tolerated, Jumps, Stalls, Passed, IsReset, Matches, JumpedBefore;
    InPhaseIsMember(c, frames, n, q);
    MatchesIff(c, frames, n, q);
    ElapsedIff(c, frames, s, n, t, q);
    LagIff(c, frames, s, n, t.lag, if Passed(c, frames, n) > 0 then 0 else t.lag + 1);
    MovedIff(c, frames, s, n, t, q);
    JumpedMore(c, frames, s, n);
    JumpedOnce(c, frames, s, n);
  }

  lemma JumpedOnce(c: Config, frames: seq<Frame>, s: nat, n: nat)
    requires s < n < |frames|
    ensures Tolerated(c, frames, s, n) ==> !JumpedBefore(c, frames, s, n)
  {
  }

  /** The bookkeeping accepts exactly the frames that play, and holds the history one frame longer. */
  lemma AdvanceIff(c: Config, frames: seq<Frame>, s: nat, n: nat, t: Tracker)
    requires c.Valid() && s < n < |frames| && HoldsCursor(c, frames, s, n, t)
    ensures Advance(c, t, frames[n]).Ok? <==> exists p, q :: Plays(c, frames, s, n, p, q)
    ensures Advance(c, t, frames[n]).Ok? ==>
              var r := Advance(c, t, frames[n]).value;
              && HoldsCursor(c, frames, s, n + 1, r)
              && r == AdvanceTo(c, t, frames[n], r.index, Passed(c, frames, n))
  {
    hide Advance, HoldsLag, Matches, Tolerated, MovedEnough, Stalls;
    if q: nat :| InPhase(c, frames, n, q) {
      AdvanceInPhase(c, frames, s, n, t, q);
      if p, q' :| Plays(c, frames, s, n, p, q') {
        OnePhase(c, frames, n, q, q');
        OnePhase(c, frames, n - 1, p, t.index);
      }
    } else {
      NoPhaseNoAdvance(c, frames, s, n, t);
    }
  }

  lemma NoPhaseNoAdvance(c: Config, frames: seq<Frame>, s: nat, n: nat, t: Tracker)
    requires c.Valid() && s < n < |frames| && 0 <= t.index && forall q: nat :: !InPhase(c, frames, n, q)
    ensures Advance(c, t, frames[n]).Err?
  {
    forall i | 0 <= i < |c.phases|
      ensures !Member(c.phases[i], frames[n].state)
    {
      InPhaseIsMember(c, frames, n, i);
    }
    MatchesNothing(c.phases, frames[n].state);
  }

  // ----- the diagnostic -----

  ghost predicate Diagnosed(c: Config, frames: seq<Frame>, n: nat, t: Tracker)
    requires n <= |frames|
  {
    if n == 0 then t.hit.None? && t.previousDiagnostic == 0 else HoldsDiagnostic(c, frames, n, t)
  }

  lemma DiagnoseIff(c: Config, frames: seq<Frame>, s: nat, n: nat, t: Tracker)
    requires c.Valid() && n < |frames| && Diagnosed(c, frames, n, t)
    requires t.index == c.Last() <==> s < n && InLast(c, frames, n)
    ensures Diagnose(c, t, frames[n]).Ok? <==> DiagnosticFits(c, frames, s, n)
    ensures Diagnose(c, t, frames[n]).Ok? ==>
              var r := Diagnose(c, t, frames[n]).value;
              r == t.(previousDiagnostic := r.previousDiagnostic, hit := r.hit) && HoldsDiagnostic(c, frames, n + 1, r)
  {
    hide InPhase;
    if c.useDiagnostic && Diagnose(c, t, frames[n]).Ok? {
      var r := Diagnose(c, t, frames[n]).value;
      assert WrappedDelta(t.previousDiagnostic, ByteAt(frames[n].state, c.diagnosticField)) == DiagnosticStep(c, frames, n);
      if t.hit.None? && DiagnosticStep(c, frames, n) > 0 {
        assert HitAt(c, frames, n);
      }
    }
  }

  // ----- rows -----

  lemma AppendRow(c: Config, frames: seq<Frame>, s: nat, n: nat, rows: seq<Row>, row: Row)
    requires AreRows(c, frames, s, n, rows) && IsRow(c, frames, s, n, row)
    ensures AreRows(c, frames, s, n + 1, rows + [row])
  {
    hide IsRow;
    var all := rows + [row];
    forall i | 0 <= i < |all|
      ensures IsRow(c, frames, s, n + 1 - |all| + i, all[i])
    {
      if i < |rows| {
        assert IsRow(c, frames, s, n - |rows| + i, rows[i]);
      }
    }
  }

  lemma DropRow(c: Config, frames: seq<Frame>, s: nat, n: nat, rows: seq<Row>)
    requires rows != [] && AreRows(c, frames, s, n, rows)
    ensures AreRows(c, frames, s, n, rows[1..])
  {
    hide IsRow;
    forall i | 0 <= i < |rows[1..]|
      ensures IsRow(c, frames, s, n - |rows[1..]| + i, rows[1..][i])
    {
      assert IsRow(c, frames, s, n - |rows| + (i + 1), rows[i + 1]);
    }
  }

  lemma RememberHolds(c: Config, frames: seq<Frame>, s: nat, n: nat, t: Tracker)
    requires s <= n < |frames|
    requires if n == s then t.recent == [] else HoldsRows(c, frames, s, n, t)
    requires t.ticks == TicksTo(c, frames, s, n) && InPhase(c, frames, n, t.index)
    ensures HoldsRows(c, frames, s, n + 1, Remember(t, frames[n]))
  {
    hide AreRows, InPhase, TicksTo;
    var row := Row(frames[n].number, t.ticks, t.index, frames[n].state);
    if n == s {
      NoRows(c, frames, s, n);
    }
    AppendRow(c, frames, s, n, t.recent, row);
    if |t.recent| == 3 {
      DropRow(c, frames, s, n + 1, t.recent + [row]);
    }
  }

  lemma NoRows(c: Config, frames: seq<Frame>, s: nat, n: nat)
    ensures AreRows(c, frames, s, n, [])
  {
  }

  lemma RoomMore(c: Config, frames: seq<Frame>, s: nat, n: nat, t: Tracker, r: Tracker)
    requires c.Valid() && s < n < |frames| && HoldsCursor(c, frames, s, n, t) && HoldsRoom(c, frames, s, n, t)
    requires r.index == t.index || r.index == t.index + 1
    requires r == AdvanceTo(c, t, frames[n], r.index, Passed(c, frames, n)) && InPhase(c, frames, n, r.index)
    ensures HoldsRoom(c, frames, s, n + 1, r)
  {
    hide HoldsLag, TicksTo, Member;
    assert r.ticks == TicksTo(c, frames, s, n) by { TicksMore(c, frames, s, n); }
    if InLast(c, frames, n) {
      OnePhase(c, frames, n, r.index, c.Last());
    }
    if InLast(c, frames, n - 1) {
      OnePhase(c, frames, n - 1, t.index, c.Last());
    }
    if r.index != t.index && r.index == c.Last() {
      assert RoomAt(c, frames, s, n);
    }
  }

  lemma TicksMore(c: Config, frames: seq<Frame>, s: nat, n: nat)
    requires s < n < |frames|
    ensures TicksTo(c, frames, s, n) == TicksTo(c, frames, s, n - 1) + Passed(c, frames, n)
  {
  }

  // ----- completing -----

  lemma WorldsOfRows(c: Config, frames: seq<Frame>, s: nat, n: int, rows: seq<Row>, i: nat)
    requires AreRows(c, frames, s, n, rows) && i < |rows|
    ensures 0 <= n - |rows| + i < |frames| && rows[i].state == frames[n - |rows| + i].state
    ensures At(rows[i].state, c.world) == World(c, frames, n - |rows| + i)
  {
    hide InPhase, TicksTo;
    assert IsRow(c, frames, s, n - |rows| + i, rows[i]);
  }

  lemma RowIsSteady(c: Config, frames: seq<Frame>, s: nat, k: nat, row: Row, earliest: int)
    requires c.Valid() && IsRow(c, frames, s, k, row)
    ensures row.phase == c.Last() && row.frame >= earliest && Coherent(c, row) <==> Steady(c, frames, k, earliest)
  {
    hide TicksTo;
    if InLast(c, frames, k) {
      OnePhase(c, frames, k, row.phase, c.Last());
    }
  }

  lemma RowsAreNeighbors(c: Config, frames: seq<Frame>, s: nat, k: nat, a: Row, b: Row)
    requires 0 < k && IsRow(c, frames, s, k - 1, a) && IsRow(c, frames, s, k, b)
    ensures Near(c, a, b) <==> Neighbors(c, frames, k)
  {
    hide TicksTo, InPhase;
  }

  /** Three rows are confirmed exactly when their frames form a window. */
  lemma ConfirmedIff(c: Config, frames: seq<Frame>, s: nat, k: nat, rows: seq<Row>, earliest: int)
    requires c.Valid() && k < |frames| && s + 2 <= k && |rows| == 3 && AreRows(c, frames, s, k + 1, rows)
    ensures Confirmed(c, rows, earliest) <==> WindowFrom(c, frames, k, earliest)
  {
    hide IsRow, Near, Neighbors, Steady, Coherent;
    assert IsRow(c, frames, s, k - 2, rows[0]) && IsRow(c, frames, s, k - 1, rows[1]) && IsRow(c, frames, s, k, rows[2]);
    RowIsSteady(c, frames, s, k - 2, rows[0], earliest);
    RowIsSteady(c, frames, s, k - 1, rows[1], earliest);
    RowIsSteady(c, frames, s, k, rows[2], earliest);
    RowsAreNeighbors(c, frames, s, k - 1, rows[0], rows[1]);
    RowsAreNeighbors(c, frames, s, k, rows[1], rows[2]);
  }

  /** The move demanded of two windows is demanded of each pair of their frames. */
  lemma MoveIff(c: Config, frames: seq<Frame>, s: nat, a: nat, k: nat, anchor: seq<Row>, rows: seq<Row>)
    requires s + 2 <= a < k < |frames| && |anchor| == 3 && |rows| == 3
    requires AreRows(c, frames, s, a + 1, anchor) && AreRows(c, frames, s, k + 1, rows)
    ensures MinWorld(c, rows) - MaxWorld(c, anchor) >= c.minimumMove <==>
              forall i: nat, j: nat :: k - 2 <= i <= k && a - 2 <= j <= a ==> World(c, frames, i) - World(c, frames, j) >= c.minimumMove
  {
    hide AreRows, World, MinWorld, MaxWorld;
    forall i | 0 <= i < 3
      ensures At(rows[i].state, c.world) == World(c, frames, k - 2 + i)
      ensures At(anchor[i].state, c.world) == World(c, frames, a - 2 + i)
    {
      WorldsOfRows(c, frames, s, k + 1, rows, i);
      WorldsOfRows(c, frames, s, a + 1, anchor, i);
    }
    var lo :| 0 <= lo < 3 && MinWorld(c, rows) == At(rows[lo].state, c.world);
    var hi :| 0 <= hi < 3 && MaxWorld(c, anchor) == At(anchor[hi].state, c.world);
    if MinWorld(c, rows) - MaxWorld(c, anchor) >= c.minimumMove {
      forall i: nat, j: nat | k - 2 <= i <= k && a - 2 <= j <= a
        ensures World(c, frames, i) - World(c, frames, j) >= c.minimumMove
      {
        assert At(rows[i - (k - 2)].state, c.world) == World(c, frames, i);
        assert At(anchor[j - (a - 2)].state, c.world) == World(c, frames, j);
      }
    }
  }

  /** Where windows count from, as the tracker knows it. */
  lemma CountsFromIff(c: Config, frames: seq<Frame>, s: nat, k: nat, t: Tracker)
    requires c.Valid() && s < k < |frames| && HoldsRoom(c, frames, s, k + 1, t) && HoldsDiagnostic(c, frames, k + 1, t)
    ensures t.roomTick.None? || (c.useDiagnostic && t.hit.None?) <==> forall e: nat :: !CountsFrom(c, frames, s, k, e)
    ensures forall e: nat :: CountsFrom(c, frames, s, k, e) ==> frames[e].number == (if c.useDiagnostic then t.hit.value else t.roomFrame)
  {
    hide InPhase, TicksTo, DiagnosticStep;
    if t.roomTick.Some? && (c.useDiagnostic ==> t.hit.Some?) {
      var r: nat :| r < k + 1 && RoomAt(c, frames, s, r) && t.roomFrame == frames[r].number;
      var e := r;
      if c.useDiagnostic {
        e :| 0 <= e < k + 1 && HitAt(c, frames, e) && t.hit.value == frames[e].number;
      }
      assert CountsFrom(c, frames, s, k, e);
    }
  }

  /** The anchor is the only first window. */
  lemma AnchorsAgree(c: Config, frames: seq<Frame>, s: nat, a: nat, b: nat)
    requires AnchorAt(c, frames, s, a) && AnchorAt(c, frames, s, b)
    ensures a == b
  {
    hide WindowAt;
  }

  /** The tracker finds a window exactly when the frames form one. */
  lemma WindowIff(c: Config, frames: seq<Frame>, s: nat, k: nat, t: Tracker)
    requires c.Valid() && s < k < |frames| && HoldsRoom(c, frames, s, k + 1, t) && HoldsDiagnostic(c, frames, k + 1, t)
    requires HoldsRows(c, frames, s, k + 1, t)
    ensures WindowAt(c, frames, s, k) <==>
              && t.roomTick.Some? && (c.useDiagnostic ==> t.hit.Some?)
              && Confirmed(c, t.recent, if c.useDiagnostic then t.hit.value else t.roomFrame)
  {
    hide HoldsRoom, HoldsDiagnostic, CountsFrom, WindowFrom, Confirmed, AreRows;
    CountsFromIff(c, frames, s, k, t);
    if t.roomTick.Some? && (c.useDiagnostic ==> t.hit.Some?) {
      var earliest := if c.useDiagnostic then t.hit.value else t.roomFrame;
      if s + 2 <= k {
        ConfirmedIff(c, frames, s, k, t.recent, earliest);
      } else {
        ShortIsUnconfirmed(c, t.recent, earliest);
      }
    }
  }

  lemma ShortIsUnconfirmed(c: Config, rows: seq<Row>, earliest: int)
    requires |rows| != 3
    ensures !Confirmed(c, rows, earliest)
  {
  }

  /** Where the tracker measures the ticks of the endpoint from. */
  function StartTick(c: Config, t: Tracker, anchor: seq<Row>): nat
    requires |anchor| == 3 && t.roomTick.Some?
  {
    if c.useDiagnostic then anchor[1].tick else t.roomTick.value
  }

  lemma FarIff(c: Config, frames: seq<Frame>, s: nat, a: nat, k: nat, t: Tracker, anchor: seq<Row>)
    requires c.Valid() && s + 2 <= a < k < |frames| && HoldsRoom(c, frames, s, k + 1, t) && t.roomTick.Some?
    requires |anchor| == 3 && |t.recent| == 3 && AreRows(c, frames, s, a + 1, anchor) && AreRows(c, frames, s, k + 1, t.recent)
    requires InLast(c, frames, k - 2)
    ensures FarFrom(c, frames, s, a, k) <==>
              && t.recent[0].tick - StartTick(c, t, anchor) >= c.minimumTicks
              && MinWorld(c, t.recent) - MaxWorld(c, anchor) >= c.minimumMove
  {
    hide MinWorld, MaxWorld, InPhase, TicksTo, World, AreRows;
    MoveIff(c, frames, s, a, k, anchor, t.recent);
    FirstTick(c, frames, s, k, t.recent);
    MiddleTick(c, frames, s, a, anchor);
    var r: nat :| r < k + 1 && RoomAt(c, frames, s, r) && t.roomTick.value == TicksTo(c, frames, s, r);
    assert r <= k - 2;
    forall e: nat | RoomAt(c, frames, s, e)
      ensures e == r
    {
    }
  }

  lemma FirstTick(c: Config, frames: seq<Frame>, s: nat, k: nat, rows: seq<Row>)
    requires |rows| == 3 && s + 2 <= k && AreRows(c, frames, s, k + 1, rows)
    ensures k < |frames| && rows[0].tick == TicksTo(c, frames, s, k - 2)
  {
    hide InPhase, TicksTo;
    assert IsRow(c, frames, s, k - 2, rows[0]) && IsRow(c, frames, s, k, rows[2]);
  }

  lemma MiddleTick(c: Config, frames: seq<Frame>, s: nat, a: nat, rows: seq<Row>)
    requires |rows| == 3 && s + 2 <= a && AreRows(c, frames, s, a + 1, rows)
    ensures a < |frames| && rows[1].tick == TicksTo(c, frames, s, a - 1)
  {
    hide InPhase, TicksTo;
    assert IsRow(c, frames, s, a - 1, rows[1]) && IsRow(c, frames, s, a, rows[2]);
  }

  /** The anchor known before frame `k`. */
  ghost predicate Anchored(c: Config, frames: seq<Frame>, s: nat, k: nat, t: Tracker)
    requires s <= k < |frames|
  {
    if k == s then t.anchor.None? else HoldsAnchor(c, frames, s, k, t)
  }

  lemma NoWindowYet(c: Config, frames: seq<Frame>, s: nat, k: nat)
    requires k < |frames| && k <= s + 1
    ensures forall j: nat :: j <= k ==> !WindowAt(c, frames, s, j)
  {
  }

  lemma AnchorIsBehind(c: Config, frames: seq<Frame>, s: nat, a: nat)
    requires AnchorAt(c, frames, s, a)
    ensures s + 2 <= a
  {
  }

  lemma WindowStart(c: Config, frames: seq<Frame>, s: nat, k: nat)
    requires k < |frames| && WindowAt(c, frames, s, k)
    ensures s + 2 <= k && InLast(c, frames, k - 2)
  {
  }

  /** The state of the tracker between the rows and the check for completion. */
  ghost predicate Ready(c: Config, frames: seq<Frame>, s: nat, k: nat, t: Tracker)
    requires s < k < |frames|
  {
    && HoldsCursor(c, frames, s, k + 1, t) && HoldsRoom(c, frames, s, k + 1, t) && HoldsDiagnostic(c, frames, k + 1, t)
    && HoldsRows(c, frames, s, k + 1, t) && HoldsAnchor(c, frames, s, k, t)
  }

  lemma NoAnchorIff(c: Config, frames: seq<Frame>, s: nat, k: nat, t: Tracker)
    requires s < k < |frames| && HoldsAnchor(c, frames, s, k, t)
    ensures t.anchor.None? ==> !CompletesAt(c, frames, s, k) && (WindowAt(c, frames, s, k) ==> AnchorAt(c, frames, s, k))
  {
    hide WindowAt, AreRows, FarFrom;
  }

  /** With an anchor known, a frame completes the run exactly when its window lies far enough from it. */
  lemma CompletesIff(c: Config, frames: seq<Frame>, s: nat, k: nat, a: nat)
    requires s < k < |frames| && a < k && AnchorAt(c, frames, s, a)
    ensures s + 2 <= a
    ensures CompletesAt(c, frames, s, k) <==> WindowAt(c, frames, s, k) && FarFrom(c, frames, s, a, k)
  {
    hide FarFrom, WindowAt;
    AnchorIsBehind(c, frames, s, a);
    if CompletesAt(c, frames, s, k) {
      var b :| s + 2 <= b < k && AnchorAt(c, frames, s, b) && FarFrom(c, frames, s, b, k);
      AnchorsAgree(c, frames, s, a, b);
    }
  }

  /** Without a window nothing completes and the anchor stays. */
  lemma AnchorStays(c: Config, frames: seq<Frame>, s: nat, k: nat, t: Tracker)
    requires s < k < |frames| && HoldsAnchor(c, frames, s, k, t) && (t.anchor.Some? || !WindowAt(c, frames, s, k))
    ensures HoldsAnchor(c, frames, s, k + 1, t)
  {
    hide WindowAt, AreRows;
  }

  lemma AnchorTaken(c: Config, frames: seq<Frame>, s: nat, k: nat, t: Tracker)
    requires s < k < |frames| && HoldsAnchor(c, frames, s, k, t) && t.anchor.None? && WindowAt(c, frames, s, k)
    requires HoldsRows(c, frames, s, k + 1, t)
    ensures HoldsAnchor(c, frames, s, k + 1, t.(anchor := Some(t.recent)))
  {
    hide AreRows, WindowFrom, CountsFrom;
    assert s + 2 <= k by { WindowStart(c, frames, s, k); }
    assert AnchorAt(c, frames, s, k) by { NoAnchorIff(c, frames, s, k, t); }
  }

  lemma CompleteAnchored(c: Config, frames: seq<Frame>, s: nat, k: nat, t: Tracker)
    requires c.Valid() && s < k < |frames| && Ready(c, frames, s, k, t) && t.anchor.Some? && WindowAt(c, frames, s, k)
    ensures t.roomTick.Some? && |t.anchor.value| == 3 && |t.recent| == 3
    ensures CompletesAt(c, frames, s, k) <==>
              && t.recent[0].tick - StartTick(c, t, t.anchor.value) >= c.minimumTicks
              && MinWorld(c, t.recent) - MaxWorld(c, t.anchor.value) >= c.minimumMove
  {
    hide HoldsCursor, HoldsRoom, HoldsDiagnostic, AreRows, FarFrom, AnchorAt, CompletesAt, WindowAt, MinWorld, MaxWorld, InPhase;
    WindowIff(c, frames, s, k, t);
    WindowStart(c, frames, s, k);
    var a: nat :| a < k && AnchorAt(c, frames, s, a) && AreRows(c, frames, s, a + 1, t.anchor.value);
    AnchorIsBehind(c, frames, s, a);
    FarIff(c, frames, s, a, k, t, t.anchor.value);
    CompletesIff(c, frames, s, k, a);
  }

  /** What the check for completion answers. */
  lemma CompleteIff(c: Config, frames: seq<Frame>, s: nat, k: nat, t: Tracker)
    requires c.Valid() && s < k < |frames| && Ready(c, frames, s, k, t)
    ensures t.anchor.Some? ==> |t.anchor.value| == 3
    ensures Complete(c, t).Ok? <==> (CompletesAt(c, frames, s, k) ==> JumpedBefore(c, frames, s, k + 1))
    ensures Complete(c, t).Ok? ==>
              var (r, complete) := Complete(c, t).value;
              && (complete <==> CompletesAt(c, frames, s, k))
              && (!complete ==> Holds(c, frames, s, k + 1, r))
  {
    hide HoldsRoom, HoldsDiagnostic, AreRows, AnchorAt, WindowAt, Confirmed, MinWorld, MaxWorld, InPhase, HoldsLag, CompletesAt;
    hide JumpedBefore, TicksTo, HoldsAnchor;
    AnchorHasThree(c, frames, s, k, t);
    WindowIff(c, frames, s, k, t);
    if t.anchor.None? {
      NoAnchorIff(c, frames, s, k, t);
      if WindowAt(c, frames, s, k) {
        AnchorTaken(c, frames, s, k, t);
        AnchorAside(c, frames, s, k, t, Some(t.recent));
      } else {
        AnchorStays(c, frames, s, k, t);
      }
    } else {
      AnchorStays(c, frames, s, k, t);
      if WindowAt(c, frames, s, k) {
        CompleteAnchored(c, frames, s, k, t);
      } else {
        NotWithoutWindow(c, frames, s, k);
      }
    }
  }

  lemma AnchorAside(c: Config, frames: seq<Frame>, s: nat, k: nat, t: Tracker, anchor: Option<seq<Row>>)
    requires s < k < |frames| && Ready(c, frames, s, k, t)
    ensures var r := t.(anchor := anchor);
            && HoldsCursor(c, frames, s, k + 1, r) && HoldsRoom(c, frames, s, k + 1, r) && HoldsDiagnostic(c, frames, k + 1, r)
            && HoldsRows(c, frames, s, k + 1, r)
  {
    hide InPhase, TicksTo, AreRows, HoldsLag, JumpedBefore, RoomAt, HitAt;
  }

  lemma NotWithoutWindow(c: Config, frames: seq<Frame>, s: nat, k: nat)
    requires k < |frames| && !WindowAt(c, frames, s, k)
    ensures !CompletesAt(c, frames, s, k)
  {
  }

  lemma AnchorHasThree(c: Config, frames: seq<Frame>, s: nat, k: nat, t: Tracker)
    requires s < k < |frames| && HoldsAnchor(c, frames, s, k, t)
    ensures t.anchor.Some? ==> |t.anchor.value| == 3
  {
  }

  // ----- one frame -----

  /** The diagnostic part of a frame in the stage leaves the rest of the history alone. */
  lemma DiagnosticAside(c: Config, frames: seq<Frame>, s: nat, n: nat, t: Tracker, r: Tracker)
    requires s <= n < |frames| && r == t.(previousDiagnostic := r.previousDiagnostic, hit := r.hit)
    ensures HoldsCursor(c, frames, s, n + 1, t) ==> HoldsCursor(c, frames, s, n + 1, r)
    ensures HoldsRoom(c, frames, s, n + 1, t) ==> HoldsRoom(c, frames, s, n + 1, r)
    ensures s < n && HoldsRows(c, frames, s, n, t) ==> HoldsRows(c, frames, s, n, r)
    ensures Anchored(c, frames, s, n, t) ==> Anchored(c, frames, s, n, r)
  {
    hide InPhase, TicksTo, AreRows, HoldsLag, JumpedBefore, RoomAt, AnchorAt, WindowAt;
  }

  lemma RowsAside(c: Config, frames: seq<Frame>, s: nat, n: nat, t: Tracker, r: Tracker)
    requires s <= n < |frames| && r == t.(recent := r.recent)
    ensures HoldsCursor(c, frames, s, n + 1, t) ==> HoldsCursor(c, frames, s, n + 1, r)
    ensures HoldsRoom(c, frames, s, n + 1, t) ==> HoldsRoom(c, frames, s, n + 1, r)
    ensures HoldsDiagnostic(c, frames, n + 1, t) ==> HoldsDiagnostic(c, frames, n + 1, r)
    ensures Anchored(c, frames, s, n, t) ==> Anchored(c, frames, s, n, r)
  {
    hide InPhase, TicksTo, AreRows, HoldsLag, JumpedBefore, RoomAt, AnchorAt, WindowAt, HitAt, DiagnosticStep;
  }

  /** After the bookkeeping of a frame of the stage: what the diagnostic and the completion answer. */
  lemma FinishIff(c: Config, frames: seq<Frame>, s: nat, n: nat, t: Tracker)
    requires c.Valid() && s < n < |frames|
    requires HoldsCursor(c, frames, s, n + 1, t) && HoldsRoom(c, frames, s, n + 1, t) && Diagnosed(c, frames, n, t)
    requires HoldsRows(c, frames, s, n, t) && HoldsAnchor(c, frames, s, n, t)
    ensures t.anchor.Some? ==> |t.anchor.value| == 3
    ensures Finish(c, t, frames[n]).Ok? <==>
              DiagnosticFits(c, frames, s, n) && (CompletesAt(c, frames, s, n) ==> JumpedBefore(c, frames, s, n + 1))
    ensures Finish(c, t, frames[n]).Ok? ==>
              var (r, complete) := Finish(c, t, frames[n]).value;
              && (complete <==> CompletesAt(c, frames, s, n))
              && (!complete ==> Holds(c, frames, s, n + 1, r))
  {
    hide HoldsLag, HoldsRoom, HoldsDiagnostic, HoldsRows, HoldsAnchor, CompletesAt, Complete, Diagnose, Remember, Holds, InPhase, TicksTo, DiagnosticFits;
    hide JumpedBefore;
    AnchorHasThree(c, frames, s, n, t);
    LastByIndex(c, frames, n, t.index);
    DiagnoseIff(c, frames, s, n, t);
    if Diagnose(c, t, frames[n]).Ok? {
      var t1 := Diagnose(c, t, frames[n]).value;
      DiagnosticAside(c, frames, s, n, t, t1);
      RememberHolds(c, frames, s, n, t1);
      var t2 := Remember(t1, frames[n]);
      RememberKeeps(t1, frames[n]);
      RowsAside(c, frames, s, n, t1, t2);
      CompleteIff(c, frames, s, n, t2);
    }
  }

  lemma RememberKeeps(t: Tracker, f: Frame)
    ensures Remember(t, f) == t.(recent := Remember(t, f).recent)
  {
  }

  lemma LastByIndex(c: Config, frames: seq<Frame>, n: nat, p: int)
    requires c.Valid() && n < |frames| && InPhase(c, frames, n, p)
    ensures p == c.Last() <==> InLast(c, frames, n)
  {
    if InLast(c, frames, n) {
      OnePhase(c, frames, n, p, c.Last());
    }
  }

  lemma AnchorOfHolds(c: Config, frames: seq<Frame>, s: nat, n: nat, t: Tracker)
    requires s <= |frames| && n <= |frames| && Holds(c, frames, s, n, t)
    ensures t.anchor.Some? ==> |t.anchor.value| == 3
    ensures t.index < 0 <==> n <= s
  {
  }

  /** A frame of the stage after the first. */
  lemma StageFrameIff(c: Config, frames: seq<Frame>, s: nat, n: nat, t: Tracker)
    requires c.Valid() && FirstStage(frames, s) && s < n < |frames| && Holds(c, frames, s, n, t)
    ensures t.anchor.Some? ==> |t.anchor.value| == 3
    ensures Update(c, t, frames[n]).Ok? <==>
              Fits(c, frames, s, n) && (CompletesAt(c, frames, s, n) ==> JumpedBefore(c, frames, s, n + 1))
    ensures Update(c, t, frames[n]).Ok? ==>
              var (r, complete) := Update(c, t, frames[n]).value;
              && (complete <==> CompletesAt(c, frames, s, n))
              && (!complete ==> Holds(c, frames, s, n + 1, r))
  {
    hide HoldsLag, HoldsRoom, HoldsDiagnostic, HoldsRows, HoldsAnchor, CompletesAt, Finish, Advance, InPhase, TicksTo, DiagnosticFits, Plays;
    hide JumpedBefore, AdvanceTo;
    AnchorOfHolds(c, frames, s, n, t);
    AdvanceIff(c, frames, s, n, t);
    if Advance(c, t, frames[n]).Ok? {
      var r := Advance(c, t, frames[n]).value;
      AdvancedParts(c, frames, s, n, t, r);
      FinishIff(c, frames, s, n, r);
    }
  }

  lemma AdvancedParts(c: Config, frames: seq<Frame>, s: nat, n: nat, t: Tracker, r: Tracker)
    requires c.Valid() && s < n < |frames| && Holds(c, frames, s, n, t)
    requires Advance(c, t, frames[n]) == Ok(r)
    requires HoldsCursor(c, frames, s, n + 1, r) && r == AdvanceTo(c, t, frames[n], r.index, Passed(c, frames, n))
    ensures HoldsRoom(c, frames, s, n + 1, r) && Diagnosed(c, frames, n, r)
    ensures HoldsRows(c, frames, s, n, r) && HoldsAnchor(c, frames, s, n, r)
  {
    hide HoldsLag, InPhase, TicksTo, AreRows, AnchorAt, WindowAt, Elapsed, Moved, IsReset, JumpedBefore, HitAt, DiagnosticStep, Matches;
    RoomMore(c, frames, s, n, t, r);
  }

  /** Before the stage the diagnostic byte has not moved. */
  lemma DiagnosedBefore(c: Config, frames: seq<Frame>, n: nat, t: Tracker)
    requires n <= |frames| && HoldsBefore(c, frames, n, t)
    ensures Diagnosed(c, frames, n, t)
  {
  }

  /** A frame before the stage. */
  lemma EarlyFrameIff(c: Config, frames: seq<Frame>, s: nat, n: nat, t: Tracker)
    requires c.Valid() && FirstStage(frames, s) && n < s && Holds(c, frames, s, n, t)
    ensures t.anchor.None? && !CompletesAt(c, frames, s, n)
    ensures Update(c, t, frames[n]).Ok? <==> Fits(c, frames, s, n)
    ensures Update(c, t, frames[n]).Ok? ==>
              var (r, complete) := Update(c, t, frames[n]).value;
              !complete && Holds(c, frames, s, n + 1, r)
  {
    hide InPhase, Diagnose, WindowAt;
    NoWindowYet(c, frames, s, n);
    DiagnosedBefore(c, frames, n, t);
    DiagnoseIff(c, frames, s, n, t);
    if Update(c, t, frames[n]).Ok? {
      StillStarting(c, frames, s, n, Diagnose(c, t, frames[n]).value);
    }
  }

  lemma StillStarting(c: Config, frames: seq<Frame>, s: nat, n: nat, r: Tracker)
    requires c.Valid() && n < s && n < |frames| && HoldsBefore(c, frames, n, START)
    requires Diagnose(c, START, frames[n]) == Ok(r)
    ensures HoldsBefore(c, frames, n + 1, r)
  {
  }

  /** The first frame of the stage. */
  lemma FirstFrameIff(c: Config, frames: seq<Frame>, s: nat, t: Tracker)
    requires c.Valid() && FirstStage(frames, s) && s < |frames| && Holds(c, frames, s, s, t)
    ensures t.anchor.None? && !CompletesAt(c, frames, s, s)
    ensures Update(c, t, frames[s]).Ok? <==> Fits(c, frames, s, s)
    ensures Update(c, t, frames[s]).Ok? ==>
              var (r, complete) := Update(c, t, frames[s]).value;
              !complete && Holds(c, frames, s, s + 1, r)
  {
    hide InPhase, Diagnose, Complete, Remember, DiagnosticFits, WindowAt, Diagnosed;
    NoWindowYet(c, frames, s, s);
    DiagnosedBefore(c, frames, s, t);
    MatchesIff(c, frames, s, 0);
    if Enter(c, t, frames[s]).Ok? {
      var e := Enter(c, t, frames[s]).value;
      EnteredDiagnosed(c, frames, s, t, e);
      LastByIndex(c, frames, s, 0);
      DiagnoseIff(c, frames, s, s, e);
      if Diagnose(c, e, frames[s]).Ok? {
        FirstHolds(c, frames, s, e, Diagnose(c, e, frames[s]).value);
      }
    }
  }

  lemma EnteredDiagnosed(c: Config, frames: seq<Frame>, s: nat, t: Tracker, e: Tracker)
    requires s < |frames| && Diagnosed(c, frames, s, t) && e.hit == t.hit && e.previousDiagnostic == t.previousDiagnostic
    ensures Diagnosed(c, frames, s, e)
  {
  }

  lemma FirstHolds(c: Config, frames: seq<Frame>, s: nat, e: Tracker, d: Tracker)
    requires c.Valid() && s < |frames| && InPhase(c, frames, s, 0)
    requires e == START.(index := 0, initial := frames[s].state, previousTick := TickByte(c, frames, s))
    requires d == e.(previousDiagnostic := d.previousDiagnostic, hit := d.hit) && HoldsDiagnostic(c, frames, s + 1, d)
    ensures Complete(c, Remember(d, frames[s])) == Ok((Remember(d, frames[s]), false))
    ensures Holds(c, frames, s, s + 1, Remember(d, frames[s]))
  {
    hide InPhase, HoldsDiagnostic, WindowAt;
    var r := Remember(d, frames[s]);
    RememberHolds(c, frames, s, s, d);
    RememberKeeps(d, frames[s]);
    NothingJumped(c, frames, s);
    NoWindowYet(c, frames, s, s);
    assert HoldsDiagnostic(c, frames, s + 1, r) by { DiagnosticOfRows(c, frames, s + 1, d, r); }
  }

  lemma DiagnosticOfRows(c: Config, frames: seq<Frame>, n: nat, t: Tracker, r: Tracker)
    requires 0 < n <= |frames| && HoldsDiagnostic(c, frames, n, t) && r == t.(recent := r.recent)
    ensures HoldsDiagnostic(c, frames, n, r)
  {
  }

  lemma NothingJumped(c: Config, frames: seq<Frame>, s: nat)
    requires s < |frames|
    ensures !JumpedBefore(c, frames, s, s + 1)
  {
  }

  // ----- whole runs -----

  /** Nothing in the frames before `n` is refused or completes the run. */
  ghost predicate GoesOn(c: Config, frames: seq<Frame>, s: nat, n: nat)
    requires |c.minimumAdvance| == |c.phases| && n <= |frames|
  {
    forall k: nat :: k < n ==> Fits(c, frames, s, k) && !CompletesAt(c, frames, s, k)
  }

  lemma FrameIff(c: Config, frames: seq<Frame>, s: nat, n: nat, t: Tracker)
    requires c.Valid() && FirstStage(frames, s) && n < |frames| && Holds(c, frames, s, n, t)
    ensures t.anchor.Some? ==> |t.anchor.value| == 3
    ensures Update(c, t, frames[n]).Ok? <==>
              Fits(c, frames, s, n) && (CompletesAt(c, frames, s, n) ==> s < n && JumpedBefore(c, frames, s, n + 1))
    ensures Update(c, t, frames[n]).Ok? ==>
              var (r, complete) := Update(c, t, frames[n]).value;
              && (complete <==> CompletesAt(c, frames, s, n))
              && (!complete ==> Holds(c, frames, s, n + 1, r))
  {
    hide Update, Fits, CompletesAt, Holds, JumpedBefore;
    if n < s {
      EarlyFrameIff(c, frames, s, n, t);
    } else if n == s {
      FirstFrameIff(c, frames, s, t);
    } else {
      StageFrameIff(c, frames, s, n, t);
    }
  }

  lemma StartHolds(c: Config, frames: seq<Frame>, s: nat)
    requires s <= |frames|
    ensures Holds(c, frames, s, 0, START)
  {
  }

  /** The trackers of a run hold its history. */
  lemma {:induction false} RunHolds(c: Config, frames: seq<Frame>, s: nat, trace: seq<Tracker>, complete: bool, n: nat)
    requires c.Valid() && FirstStage(frames, s) && Run(c, frames, trace, complete) && n <= |frames| && (complete ==> n < |frames|)
    ensures GoesOn(c, frames, s, n) && Holds(c, frames, s, n, trace[n])
  {
    hide Update, Fits, CompletesAt, Holds, JumpedBefore;
    if n == 0 {
      StartHolds(c, frames, s);
    } else {
      RunHolds(c, frames, s, trace, complete, n - 1);
      assert Follows(c, frames, trace, complete, n - 1);
      FrameIff(c, frames, s, n - 1, trace[n - 1]);
    }
  }

  /** The trackers of the frames before `n`, when nothing there is refused or completes. */
  lemma {:induction false} Replay(c: Config, frames: seq<Frame>, s: nat, n: nat) returns (trace: seq<Tracker>)
    requires c.Valid() && FirstStage(frames, s) && n <= |frames| && GoesOn(c, frames, s, n)
    ensures |trace| == n + 1 && trace[0] == START && Holds(c, frames, s, n, trace[n])
    ensures forall k :: 0 <= k < n ==> Replays(c, frames, trace, k)
  {
    hide Update, Fits, CompletesAt, Holds, JumpedBefore;
    trace := [START];
    if n == 0 {
      StartHolds(c, frames, s);
    } else {
      trace := Replay(c, frames, s, n - 1);
      FrameIff(c, frames, s, n - 1, trace[n - 1]);
      var r := Update(c, trace[n - 1], frames[n - 1]).value.0;
      var longer := trace + [r];
      forall k | 0 <= k < n
        ensures Replays(c, frames, longer, k)
      {
        assert k < n - 1 ==> Replays(c, frames, trace, k);
      }
      trace := longer;
    }
  }

  ghost predicate Replays(c: Config, frames: seq<Frame>, trace: seq<Tracker>, k: nat)
    requires |c.minimumAdvance| == |c.phases| && k < |frames| && k + 1 < |trace|
  {
    && (trace[k].anchor.Some? ==> |trace[k].anchor.value| == 3)
    && Update(c, trace[k], frames[k]) == Ok((trace[k + 1], false))
  }

  /** Some sequence of trackers is a run over the frames. */
  ghost predicate Accepted(c: Config, frames: seq<Frame>, complete: bool)
    requires |c.minimumAdvance| == |c.phases|
  {
    exists trace :: Run(c, frames, trace, complete)
  }

  /**
   Exactly which sequences of frames the acceptor takes without completing: every frame fits,
   and none completes the run.
   */
  lemma AcceptedIff(c: Config, frames: seq<Frame>, s: nat)
    requires c.Valid() && FirstStage(frames, s)
    ensures Accepted(c, frames, false) <==> GoesOn(c, frames, s, |frames|)
  {
    hide Update, Fits, CompletesAt, Holds, GoesOn;
    if Accepted(c, frames, false) {
      var trace :| Run(c, frames, trace, false);
      RunHolds(c, frames, s, trace, false, |frames|);
    }
    if GoesOn(c, frames, s, |frames|) {
      var trace := Replay(c, frames, s, |frames|);
      forall k | 0 <= k < |frames|
        ensures Follows(c, frames, trace, false, k)
      {
        assert Replays(c, frames, trace, k);
      }
      assert Run(c, frames, trace, false);
    }
  }

  /**
   Exactly which sequences of frames complete a run: every frame fits, the last one alone ends a
   window far enough from the anchor, and the counter has jumped.
   */
  lemma CompletedIff(c: Config, frames: seq<Frame>, s: nat)
    requires c.Valid() && FirstStage(frames, s)
    ensures Accepted(c, frames, true) <==>
              && frames != []
              && var last := |frames| - 1;
                 && GoesOn(c, frames, s, last) && Fits(c, frames, s, last) && CompletesAt(c, frames, s, last)
                 && s < last && JumpedBefore(c, frames, s, last + 1)
  {
    hide Update, Fits, CompletesAt, Holds, GoesOn, JumpedBefore;
    var last := |frames| - 1;
    if Accepted(c, frames, true) {
      var trace :| Run(c, frames, trace, true);
      RunHolds(c, frames, s, trace, true, last);
      assert Follows(c, frames, trace, true, last);
      FrameIff(c, frames, s, last, trace[last]);
    }
    if frames != [] && GoesOn(c, frames, s, last) {
      var trace := Replay(c, frames, s, last);
      FrameIff(c, frames, s, last, trace[last]);
      if Update(c, trace[last], frames[last]).Ok? && CompletesAt(c, frames, s, last) {
        var longer := trace + [Update(c, trace[last], frames[last]).value.0];
        forall k | 0 <= k < |frames|
          ensures Follows(c, frames, longer, true, k)
        {
          assert k < last ==> Replays(c, frames, trace, k);
        }
        assert Run(c, frames, longer, true);
      }
    }
  }

  /** In an accepted run the frame that enters a phase has moved as far as that phase demands. */
  lemma EnteredAfterMoving(c: Config, frames: seq<Frame>, s: nat, complete: bool, k: nat, p: int)
    requires c.Valid() && FirstStage(frames, s) && Accepted(c, frames, complete)
    requires s < k < |frames| && InPhase(c, frames, k - 1, p) && InPhase(c, frames, k, p + 1)
    ensures forall key :: key in c.minimumAdvance[p + 1] ==>
              At(frames[k].state, key) - At(frames[s].state, key) >= c.minimumAdvance[p + 1][key]
  {
    hide InPhase, CompletesAt, JumpedBefore, DiagnosticFits, Stalls, Tolerated;
    if complete {
      CompletedIff(c, frames, s);
    } else {
      AcceptedIff(c, frames, s);
    }
    assert Fits(c, frames, s, k);
    var p', q' :| Plays(c, frames, s, k, p', q');
    OnePhase(c, frames, k - 1, p, p');
    OnePhase(c, frames, k, p + 1, q');
  }
}
