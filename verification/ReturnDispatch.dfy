/**
 Marking computed returns: an RTS after at least two unmatched pushes of its block becomes
 a dispatch. The marking is characterised block by block, and a marked return is shown to
 pop two bytes that its own block pushed.
 */
module ReturnDispatch {
  import opened Bytes
  import opened Isa
  import opened Ir

  predicate IsPush(op: Op) {
    op == Register(Pha)
  }

  predicate IsPull(op: Op) {
    op == Register(Pla)
  }

  /** Operations that reset the local push balance. */
  predicate IsBoundary(op: Op) {
    op.Label? || op.BranchIf? || op.Jmp? || op.ReturnEscape? || op.Jsr? || op.MaterializedJsr? || op.Rts?
  }

  /** The counter before operation `n`. */
  function Unmatched(ops: seq<Op>, n: nat): int
    requires n <= |ops|
  {
    if n == 0 || IsBoundary(ops[n - 1]) then 0
    else Unmatched(ops, n - 1) + (if IsPush(ops[n - 1]) then 1 else if IsPull(ops[n - 1]) then -1 else 0)
  }

  predicate Marked(ops: seq<Op>, k: nat)
    requires k < |ops|
  {
    ops[k].Rts? && Unmatched(ops, k) >= 2
  }

  function MarkedCount(ops: seq<Op>, n: nat): nat
    requires n <= |ops|
  {
    if n == 0 then 0 else MarkedCount(ops, n - 1) + if Marked(ops, n - 1) then 1 else 0
  }

  function AfterMarking(ops: seq<Op>): seq<Op> {
    seq(|ops|, k requires 0 <= k < |ops| => if Marked(ops, k) then RtsDispatch else ops[k])
  }

  /** The returns before operation `n` that the pass turns into dispatches. */
  ghost function Rewritten(ops: seq<Op>, n: nat): set<int>
    requires n <= |ops|
  {
    set k | 0 <= k < n && ops[k] == Rts && AfterMarking(ops)[k] == RtsDispatch
  }

  lemma RewrittenMore(ops: seq<Op>, n: nat)
    requires 0 < n <= |ops|
    ensures |Rewritten(ops, n)| == |Rewritten(ops, n - 1)| + if Marked(ops, n - 1) then 1 else 0
  {
    hide Unmatched;
    var before := Rewritten(ops, n - 1);
    if Marked(ops, n - 1) {
      assert Rewritten(ops, n) == before + {n - 1};
    } else {
      assert Rewritten(ops, n) == before;
    }
  }

  /** The count is the number of operations rewritten. */
  lemma {:induction false} CountIsRewritten(ops: seq<Op>, n: nat)
    requires n <= |ops|
    ensures MarkedCount(ops, n) == |Rewritten(ops, n)|
    decreases n
  {
    hide Rewritten, Marked;
    if n == 0 {
      NothingRewritten(ops);
    } else {
      CountIsRewritten(ops, n - 1);
      RewrittenMore(ops, n);
    }
  }

  lemma NothingRewritten(ops: seq<Op>)
    ensures Rewritten(ops, 0) == {}
  {
  }

  method MarkRtsDispatch(ops: array<Op>) returns (hits: nat)
    modifies ops
    ensures ops[..] == AfterMarking(old(ops[..]))
    ensures hits == MarkedCount(old(ops[..]), ops.Length)
  {
    ghost var before := ops[..];
    var unmatched := 0;
    hits := 0;
    for k := 0 to ops.Length
      invariant unmatched == Unmatched(before, k) && hits == MarkedCount(before, k)
      invariant forall j :: 0 <= j < k ==> ops[j] == if Marked(before, j) then RtsDispatch else before[j]
      invariant forall j :: k <= j < ops.Length ==> ops[j] == before[j]
    {
      var op := ops[k];
      if IsPush(op) {
        unmatched := unmatched + 1;
      } else if IsPull(op) {
        unmatched := unmatched - 1;
      } else if op.Rts? {
        if unmatched >= 2 {
          ops[k] := RtsDispatch;
          hits := hits + 1;
        }
        unmatched := 0;
      } else if IsBoundary(op) {
        unmatched := 0;
      }
    }
  }

  // ----- the balance of a block -----

  /** Pushes minus pulls. */
  function Balance(block: seq<Op>): int {
    if block == [] then 0
    else
      var n := |block| - 1;
      Balance(block[..n]) + (if IsPush(block[n]) then 1 else if IsPull(block[n]) then -1 else 0)
  }

  /** Operations `s..k` run from just after a boundary, or from the start, to `k` without another. */
  predicate IsBlock(ops: seq<Op>, s: nat, k: nat) {
    && s <= k <= |ops| && (s == 0 || IsBoundary(ops[s - 1]))
    && forall j :: s <= j < k ==> !IsBoundary(ops[j])
  }

  /** The counter is the balance of the block before it. */
  lemma {:induction false} UnmatchedIsBalance(ops: seq<Op>, s: nat, k: nat)
    requires IsBlock(ops, s, k)
    ensures Unmatched(ops, k) == Balance(ops[s..k])
    decreases k
  {
    if s == k {
      assert ops[s..k] == [];
    } else {
      UnmatchedIsBalance(ops, s, k - 1);
      assert ops[s..k][..k - 1 - s] == ops[s..k - 1];
    }
  }

  /** An operation is rewritten exactly when it is a return whose block pushes at least two more bytes than it pulls. */
  lemma MarkingIsBlockwise(ops: seq<Op>, s: nat, k: nat)
    requires IsBlock(ops, s, k) && k < |ops|
    ensures AfterMarking(ops)[k] == if ops[k].Rts? && Balance(ops[s..k]) >= 2 then RtsDispatch else ops[k]
  {
    UnmatchedIsBalance(ops, s, k);
  }

  // ----- what a marked return pops -----

  /** No stack effect at all, on this machine. */
  ghost predicate LeavesStack(op: Op, m: Machine)
    requires Sequential(op)
  {
    var r := Effect(op, m);
    r.sp == m.sp && forall a: Address :: 0x100 <= a < 0x200 ==> r.bus.mem[a] == m.bus.mem[a]
  }

  /** Along the run of `block` from `m`, only PHA and PLA touch the stack. */
  ghost predicate StackOnlyByAccumulator(block: seq<Op>, m: Machine)
    requires AllSequential(block)
  {
    forall j :: 0 <= j < |block| ==> IsPush(block[j]) || IsPull(block[j]) || LeavesStack(block[j], Before(block, m, j))
  }

  /** The machine just before operation `j`. */
  function Before(block: seq<Op>, m: Machine, j: nat): Machine
    requires AllSequential(block) && j <= |block|
    decreases j
  {
    if j == 0 then m else Effect(block[j - 1], Before(block, m, j - 1))
  }

  lemma {:induction false} BeforeIsEffects(block: seq<Op>, m: Machine, j: nat)
    requires AllSequential(block) && j <= |block|
    ensures AllSequential(block[..j]) && Before(block, m, j) == Effects(block[..j], m)
  {
    if j > 0 {
      BeforeIsEffects(block, m, j - 1);
      EffectsAppend(block[..j - 1], [block[j - 1]], m);
      assert block[..j] == block[..j - 1] + [block[j - 1]];
      assert [block[j - 1]][1..] == [];
    }
  }

  /** The address of the byte at height `h` above the stack the block started with. */
  function Slot(sp: Byte, h: int): Address {
    0x100 + WrapByte(sp - h + 1)
  }

  /** What a step that touches the stack only as PHA or PLA does to it. */
  ghost predicate Moves(op: Op, s: Machine, r: Machine) {
    && r.sp == (if IsPush(op) then WrapByte(s.sp - 1) else if IsPull(op) then WrapByte(s.sp + 1) else s.sp)
    && (IsPush(op) ==> r.bus.mem == s.bus.mem[256 + s.sp := s.a])
    && (!IsPush(op) ==> forall a: Address :: 0x100 <= a < 0x200 ==> r.bus.mem[a] == s.bus.mem[a])
  }

  ghost predicate MovesAt(block: seq<Op>, states: seq<Machine>, j: nat)
    requires j < |block| && |states| == |block| + 1
  {
    Moves(block[j], states[j], states[j + 1])
  }

  ghost predicate Chain(block: seq<Op>, states: seq<Machine>) {
    |states| == |block| + 1 && forall j :: 0 <= j < |block| ==> MovesAt(block, states, j)
  }

  /** `writer[a]` is a push of the block whose byte still stands at `a`. */
  ghost predicate WrittenBy(block: seq<Op>, states: seq<Machine>, n: nat, writer: map<Address, nat>)
    requires n <= |block| && |states| == |block| + 1
  {
    forall a :: a in writer ==> 0x100 <= a < 0x200 && Writes(block, states, n, a, writer[a])
  }

  ghost predicate Writes(block: seq<Op>, states: seq<Machine>, n: nat, a: Address, j: nat)
    requires n <= |block| && |states| == |block| + 1
  {
    j < n && IsPush(block[j]) && states[n].bus.mem[a] == states[j].a
  }

  lemma PushEffect(m: Machine)
    requires m.bus.romStart >= 0x200
    ensures var r := Effect(Register(Pha), m);
            r.sp == WrapByte(m.sp - 1) && r.bus.romStart == m.bus.romStart && r.bus.mem == m.bus.mem[256 + m.sp := m.a]
  {
  }

  lemma OtherEffect(op: Op, m: Machine)
    requires Sequential(op) && m.bus.romStart >= 0x200 && !IsPush(op) && (IsPull(op) || LeavesStack(op, m))
    ensures var r := Effect(op, m);
            && r.sp == (if IsPull(op) then WrapByte(m.sp + 1) else m.sp) && r.bus.romStart == m.bus.romStart
            && forall a: Address :: 0x100 <= a < 0x200 ==> r.bus.mem[a] == m.bus.mem[a]
  {
  }

  lemma SlotOfTop(sp0: Byte, h: int)
    ensures WrapByte(WrapByte(sp0 - h) - 1) == WrapByte(sp0 - (h + 1)) && WrapByte(WrapByte(sp0 - h) + 1) == WrapByte(sp0 - (h - 1))
  {
    WrapThenAdd(sp0 - h, -1);
    WrapThenAdd(sp0 - h, 1);
  }

  lemma WrapThenAdd(x: int, d: int)
    ensures (x % 256 + d) % 256 == (x + d) % 256
  {
    assert x == x % 256 + 256 * (x / 256);
  }

  lemma {:induction false} PushedBytesStand(block: seq<Op>, states: seq<Machine>, n: nat) returns (writer: map<Address, nat>)
    requires Chain(block, states) && n <= |block|
    ensures states[n].sp == WrapByte(states[0].sp - Balance(block[..n]))
    ensures WrittenBy(block, states, n, writer)
    ensures forall h :: 1 <= h <= Balance(block[..n]) ==> Slot(states[0].sp, h) in writer
    decreases n
  {
    writer := map[];
    if n > 0 {
      var before := PushedBytesStand(block, states, n - 1);
      assert block[..n][..n - 1] == block[..n - 1];
      var h, push := Balance(block[..n - 1]), IsPush(block[n - 1]);
      assert MovesAt(block, states, n - 1);
      writer := if push then before[256 + states[n - 1].sp := n - 1] else before;
      StillWritten(block, states, n, before, writer);
      SlotsWritten(states[0].sp, states[n - 1].sp, h, before, writer, n - 1, push);
      SlotOfTop(states[0].sp, h);
    }
  }

  lemma SlotsWritten(sp0: Byte, sp: Byte, h: int, before: map<Address, nat>, writer: map<Address, nat>, j: nat, push: bool)
    requires sp == WrapByte(sp0 - h) && forall i :: 1 <= i <= h ==> Slot(sp0, i) in before
    requires writer == if push then before[256 + sp := j] else before
    ensures forall i :: 1 <= i <= (if push then h + 1 else h) ==> Slot(sp0, i) in writer
  {
    assert Slot(sp0, h + 1) == 256 + sp;
  }

  lemma StillWritten(block: seq<Op>, states: seq<Machine>, n: nat, before: map<Address, nat>, writer: map<Address, nat>)
    requires Chain(block, states) && 0 < n <= |block| && WrittenBy(block, states, n - 1, before)
    requires writer == if IsPush(block[n - 1]) then before[256 + states[n - 1].sp := n - 1] else before
    ensures WrittenBy(block, states, n, writer)
  {
    assert MovesAt(block, states, n - 1);
    forall a | a in writer
      ensures 0x100 <= a < 0x200 && Writes(block, states, n, a, writer[a])
    {
      if a in before {
        assert Writes(block, states, n - 1, a, before[a]);
      }
    }
  }

  /** The machines along the block. */
  function States(block: seq<Op>, m: Machine): (r: seq<Machine>)
    requires AllSequential(block)
    ensures |r| == |block| + 1 && forall j {:trigger r[j]} :: 0 <= j <= |block| ==> r[j] == Before(block, m, j)
  {
    seq(|block| + 1, j requires 0 <= j <= |block| => Before(block, m, j))
  }

  lemma {:induction false} RomStays(block: seq<Op>, m: Machine, j: nat)
    requires AllSequential(block) && j <= |block|
    ensures Before(block, m, j).bus.romStart == m.bus.romStart
  {
    if j > 0 {
      RomStays(block, m, j - 1);
      EffectKeepsRom(block[j - 1], Before(block, m, j - 1));
    }
  }

  lemma EffectKeepsRom(op: Op, m: Machine)
    requires Sequential(op)
    ensures Effect(op, m).bus.romStart == m.bus.romStart
  {
  }

  lemma StepMoves(op: Op, m: Machine)
    requires Sequential(op) && m.bus.romStart >= 0x200 && (IsPush(op) || IsPull(op) || LeavesStack(op, m))
    ensures Moves(op, m, Effect(op, m))
  {
    if IsPush(op) {
      PushEffect(m);
    } else {
      OtherEffect(op, m);
    }
  }

  lemma BlockMoves(block: seq<Op>, m: Machine)
    requires AllSequential(block) && StackOnlyByAccumulator(block, m) && m.bus.romStart >= 0x200
    ensures Chain(block, States(block, m))
  {
    var states := States(block, m);
    forall j | 0 <= j < |block|
      ensures MovesAt(block, states, j)
    {
      RomStays(block, m, j);
      StepMoves(block[j], Before(block, m, j));
      assert states[j] == Before(block, m, j) && states[j + 1] == Before(block, m, j + 1);
    }
  }

  lemma TopBytes(r: Machine, sp: Byte, b: int)
    requires r.sp == WrapByte(sp - b)
    ensures r.Top() == r.bus.mem[Slot(sp, b)] && r.Drop().Top() == r.bus.mem[Slot(sp, b - 1)]
  {
    SlotOfTop(sp, b);
    SlotOfTop(sp, b - 1);
  }

  /**
   Before a marked return of a block that touches the stack only with PHA and PLA, both bytes
   the return will pop were pushed from the accumulator inside that block.
   */
  lemma MarkedReturnPopsItsOwnPushes(block: seq<Op>, m: Machine) returns (lowPush: nat, highPush: nat)
    requires AllSequential(block) && StackOnlyByAccumulator(block, m) && m.bus.romStart >= 0x200 && Balance(block) >= 2
    ensures lowPush < |block| && highPush < |block| && IsPush(block[lowPush]) && IsPush(block[highPush])
    ensures Effects(block, m).TopWord() == Word(Before(block, m, lowPush).a, Before(block, m, highPush).a)
  {
    var states := States(block, m);
    BlockMoves(block, m);
    lowPush, highPush := TopPushes(block, states);
    BeforeIsEffects(block, m, |block|);
    assert block[..|block|] == block;
    assert states[|block|] == Effects(block, m) && states[0] == m;
    assert states[lowPush] == Before(block, m, lowPush) && states[highPush] == Before(block, m, highPush);
  }

  lemma TopPushes(block: seq<Op>, states: seq<Machine>) returns (lowPush: nat, highPush: nat)
    requires Chain(block, states) && Balance(block) >= 2
    ensures lowPush < |block| && highPush < |block| && IsPush(block[lowPush]) && IsPush(block[highPush])
    ensures states[|block|].TopWord() == Word(states[lowPush].a, states[highPush].a)
  {
    var n, b, sp := |block|, Balance(block), states[0].sp;
    assert block[..n] == block;
    var writer := PushedBytesStand(block, states, n);
    TopBytes(states[n], sp, b);
    lowPush, highPush := writer[Slot(sp, b)], writer[Slot(sp, b - 1)];
    assert Writes(block, states, n, Slot(sp, b), lowPush) && Writes(block, states, n, Slot(sp, b - 1), highPush);
  }

  // ----- marking twice -----

  /** A boundary that is still one after marking: any but a marked return. */
  predicate StaysBoundary(ops: seq<Op>, k: nat)
    requires k < |ops|
  {
    IsBoundary(ops[k]) && !Marked(ops, k)
  }

  /** Operations `s..k` run between boundaries that marking keeps, possibly across marked returns. */
  predicate IsJointBlock(ops: seq<Op>, s: nat, k: nat) {
    && s <= k <= |ops| && (s == 0 || StaysBoundary(ops, s - 1))
    && forall j :: s <= j < k ==> !StaysBoundary(ops, j)
  }

  lemma {:induction false} BlockStart(ops: seq<Op>, k: nat) returns (s: nat)
    requires k <= |ops|
    ensures IsBlock(ops, s, k)
  {
    if k == 0 || IsBoundary(ops[k - 1]) {
      s := k;
    } else {
      s := BlockStart(ops, k - 1);
    }
  }

  lemma JointBlockIsBlockAfter(ops: seq<Op>, s: nat, k: nat)
    ensures IsJointBlock(ops, s, k) <==> IsBlock(AfterMarking(ops), s, k)
  {
    var after := AfterMarking(ops);
    forall j: nat | j < |ops|
      ensures IsBoundary(after[j]) <==> StaysBoundary(ops, j)
    {
    }
  }

  lemma {:induction false} SameBalance(a: seq<Op>, b: seq<Op>)
    requires |a| == |b|
    requires forall j :: 0 <= j < |a| ==> a[j] == b[j] || (a[j].Rts? && b[j].RtsDispatch?)
    ensures Balance(a) == Balance(b)
  {
    if a != [] {
      SameBalance(a[..|a| - 1], b[..|b| - 1]);
    }
  }

  /** A second pass marks exactly the unmarked returns whose joint block pushes at least two more bytes than it pulls. */
  lemma SecondPassMarks(ops: seq<Op>, s: nat, k: nat)
    requires IsJointBlock(ops, s, k) && k < |ops|
    ensures Marked(AfterMarking(ops), k) <==> ops[k].Rts? && !Marked(ops, k) && Balance(ops[s..k]) >= 2
  {
    var after := AfterMarking(ops);
    JointBlockIsBlockAfter(ops, s, k);
    UnmatchedIsBalance(after, s, k);
    SameBalance(ops[s..k], after[s..k]);
  }

  /** No unmarked return sums up to two unmatched pushes across the marked returns before it. */
  ghost predicate SettledByOnePass(ops: seq<Op>) {
    forall s: nat, k: nat :: k < |ops| && IsJointBlock(ops, s, k) && ops[k].Rts? && !Marked(ops, k) ==> Balance(ops[s..k]) < 2
  }

  /** Marking twice is marking once exactly for lists that one pass settles. */
  lemma MarkingTwiceIff(ops: seq<Op>)
    ensures AfterMarking(AfterMarking(ops)) == AfterMarking(ops) <==> SettledByOnePass(ops)
  {
    var after := AfterMarking(ops);
    if SettledByOnePass(ops) {
      forall k: nat | k < |ops|
        ensures AfterMarking(after)[k] == after[k]
      {
        var s := BlockStart(after, k);
        JointBlockIsBlockAfter(ops, s, k);
        SecondPassMarks(ops, s, k);
      }
      assert AfterMarking(after) == after;
    }
    if AfterMarking(after) == after {
      forall s: nat, k: nat | k < |ops| && IsJointBlock(ops, s, k) && ops[k].Rts? && !Marked(ops, k)
        ensures Balance(ops[s..k]) < 2
      {
        SecondPassMarks(ops, s, k);
        assert AfterMarking(after)[k] == after[k];
      }
    }
  }

  /** Marking twice may mark more: the dispatch left by the first pass no longer resets the balance. */
  lemma MarkingTwiceMarksMore()
    ensures var ops := [Register(Pha), Register(Pha), Rts, Rts];
            && AfterMarking(ops) == [Register(Pha), Register(Pha), RtsDispatch, Rts]
            && AfterMarking(AfterMarking(ops)) == [Register(Pha), Register(Pha), RtsDispatch, RtsDispatch]
  {
    var ops := [Register(Pha), Register(Pha), Rts, Rts];
    assert Unmatched(ops, 1) == 1 && Unmatched(ops, 2) == 2 && Unmatched(ops, 3) == 0;
    var once := [Register(Pha), Register(Pha), RtsDispatch, Rts];
    assert AfterMarking(ops) == once;
    assert Unmatched(once, 1) == 1 && Unmatched(once, 2) == 2 && Unmatched(once, 3) == 2;
  }
}
