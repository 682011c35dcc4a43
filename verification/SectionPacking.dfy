/**
 Packing routines into 16 KiB sections: a sizing pass that fits each routine into the
 current or the next section, and a second pass that emits to the plan it recorded.
 Emission is abstract: `size(k, s)` is what routine `k` adds to section `s`.
 */
module SectionPacking {
  import opened Bytes

  const CAPACITY := 0x4000
  const FIRST_BANK := 4

  type Sizes = (nat, nat) -> nat

  datatype PackError =
    | NoBank(section: nat)
    | RoutineTooBig(routine: nat)
    | MissingAssignment(routine: nat)
    | ImpossibleSection(routine: nat)
    | Overflow(routine: nat)

  /** The section being filled, the bytes in it, and the section of every routine so far. */
  datatype Layout = Layout(section: nat, used: nat, placed: seq<nat>)

  /** Starts a section; its bank must lie below the limit. */
  function Begin(section: nat, bankLimit: nat, placed: seq<nat>): Result<Layout, PackError> {
    if FIRST_BANK + section >= bankLimit then Err(NoBank(section)) else Ok(Layout(section, 0, placed))
  }

  /** One step of the sizing pass. */
  function PackOne(l: Layout, size: Sizes, bankLimit: nat): Result<Layout, PackError> {
    var k := |l.placed|;
    if l.used + size(k, l.section) <= CAPACITY then
      Ok(Layout(l.section, l.used + size(k, l.section), l.placed + [l.section]))
    else match Begin(l.section + 1, bankLimit, l.placed)
      case Err(e) => Err(e)
      case Ok(next) =>
        if size(k, next.section) > CAPACITY then Err(RoutineTooBig(k))
        else Ok(Layout(next.section, size(k, next.section), l.placed + [next.section]))
  }

  /** The sizing pass over the first `n` routines; `head` bytes precede them in section zero. */
  function Packed(head: nat, size: Sizes, bankLimit: nat, n: nat): Result<Layout, PackError> {
    if n == 0 then
      match Begin(0, bankLimit, [])
      case Err(e) => Err(e)
      case Ok(l) => Ok(l.(used := head))
    else match Packed(head, size, bankLimit, n - 1)
      case Err(e) => Err(e)
      case Ok(l) => PackOne(l, size, bankLimit)
  }

  /** One step of the frozen pass. */
  function PlaceOne(l: Layout, plan: seq<nat>, size: Sizes, bankLimit: nat): Result<Layout, PackError> {
    var k := |l.placed|;
    if k >= |plan| then Err(MissingAssignment(k))
    else if plan[k] < l.section || plan[k] > l.section + 1 then Err(ImpossibleSection(k))
    else
      match if plan[k] > l.section then Begin(plan[k], bankLimit, l.placed) else Ok(l)
      case Err(e) => Err(e)
      case Ok(here) =>
        if here.used + size(k, here.section) > CAPACITY then Err(Overflow(k))
        else Ok(Layout(here.section, here.used + size(k, here.section), l.placed + [plan[k]]))
  }

  function Frozen(head: nat, plan: seq<nat>, size: Sizes, bankLimit: nat, n: nat): Result<Layout, PackError> {
    if n == 0 then
      match Begin(0, bankLimit, [])
      case Err(e) => Err(e)
      case Ok(l) => Ok(l.(used := head))
    else match Frozen(head, plan, size, bankLimit, n - 1)
      case Err(e) => Err(e)
      case Ok(l) => PlaceOne(l, plan, size, bankLimit)
  }

  /** The program being emitted; a failed candidate leaves it as it was. */
  class Program {
    var section: nat
    var used: nat
    var placed: seq<nat>

    function State(): Layout
      reads this
    {
      Layout(section, used, placed)
    }

    constructor (head: nat)
      ensures State() == Layout(0, head, [])
    {
      section, used, placed := 0, head, [];
    }

    method PackCandidate(size: Sizes, bankLimit: nat) returns (r: Result<nat, PackError>)
      modifies this
      ensures PackOne(old(State()), size, bankLimit)
              == if r.Ok? then Ok(State()) else Err(r.error)
      ensures r.Ok? ==> r.value == section && placed == old(placed) + [r.value]
    {
      var k := |placed|;
      var candidate := used + size(k, section);
      if candidate > CAPACITY {
        if FIRST_BANK + section + 1 >= bankLimit {
          return Err(NoBank(section + 1));
        }
        section := section + 1;
        used := 0;
        candidate := used + size(k, section);
        if candidate > CAPACITY {
          return Err(RoutineTooBig(k));
        }
      }
      used := candidate;
      placed := placed + [section];
      r := Ok(section);
    }

    method PlacePlanned(plan: seq<nat>, size: Sizes, bankLimit: nat) returns (r: Result<nat, PackError>)
      modifies this
      ensures PlaceOne(old(State()), plan, size, bankLimit)
              == if r.Ok? then Ok(State()) else Err(r.error)
    {
      var k := |placed|;
      if k >= |plan| {
        return Err(MissingAssignment(k));
      }
      var planned := plan[k];
      if planned < section || planned > section + 1 {
        return Err(ImpossibleSection(k));
      }
      if planned > section {
        if FIRST_BANK + planned >= bankLimit {
          return Err(NoBank(planned));
        }
        section := planned;
        used := 0;
      }
      var candidate := used + size(k, section);
      if candidate > CAPACITY {
        return Err(Overflow(k));
      }
      used := candidate;
      placed := placed + [planned];
      r := Ok(planned);
    }
  }

  /** Both passes: sizes first, then emission to the frozen plan with the sizes it then has. */
  method PackTwice(head: nat, size: Sizes, head2: nat, size2: Sizes, bankLimit: nat, n: nat) returns (r: Result<seq<nat>, PackError>)
    ensures var first := Packed(head, size, bankLimit, n);
            if first.Err? then r == Err(first.error)
            else
              var second := Frozen(head2, first.value.placed, size2, bankLimit, n);
              r == if second.Err? then Err(second.error) else Ok(second.value.placed)
  {
    if FIRST_BANK >= bankLimit {
      PackedFails(head, size, bankLimit, 0, n);
      return Err(NoBank(0));
    }
    var sizing := new Program(head);
    for k := 0 to n
      invariant fresh(sizing) && Packed(head, size, bankLimit, k) == Ok(sizing.State())
    {
      var step := sizing.PackCandidate(size, bankLimit);
      if step.Err? {
        PackedFails(head, size, bankLimit, k + 1, n);
        return Err(step.error);
      }
    }
    var plan := sizing.placed;
    var final := new Program(head2);
    for k := 0 to n
      invariant fresh(final) && Frozen(head2, plan, size2, bankLimit, k) == Ok(final.State())
    {
      var step := final.PlacePlanned(plan, size2, bankLimit);
      if step.Err? {
        FrozenFails(head2, plan, size2, bankLimit, k + 1, n);
        return Err(step.error);
      }
    }
    r := Ok(final.placed);
  }

  lemma {:induction false} PackedFails(head: nat, size: Sizes, bankLimit: nat, k: nat, n: nat)
    requires k <= n && Packed(head, size, bankLimit, k).Err?
    ensures Packed(head, size, bankLimit, n) == Packed(head, size, bankLimit, k)
    decreases n
  {
    if k < n {
      PackedFails(head, size, bankLimit, k, n - 1);
    }
  }

  lemma {:induction false} FrozenFails(head: nat, plan: seq<nat>, size: Sizes, bankLimit: nat, k: nat, n: nat)
    requires k <= n && Frozen(head, plan, size, bankLimit, k).Err?
    ensures Frozen(head, plan, size, bankLimit, n) == Frozen(head, plan, size, bankLimit, k)
    decreases n
  {
    if k < n {
      FrozenFails(head, plan, size, bankLimit, k, n - 1);
    }
  }

  // ----- what a packing guarantees -----

  /** All bytes that land in section `s`. */
  function SectionBytes(head: nat, size: Sizes, placed: seq<nat>, s: nat): nat {
    if placed == [] then (if s == 0 then head else 0)
    else
      var k := |placed| - 1;
      SectionBytes(head, size, placed[..k], s) + if placed[k] == s then size(k, s) else 0
  }

  lemma BytesMore(head: nat, size: Sizes, placed: seq<nat>, s: nat, t: nat)
    ensures SectionBytes(head, size, placed + [t], s) == SectionBytes(head, size, placed, s) + if t == s then size(|placed|, s) else 0
  {
    assert (placed + [t])[..|placed|] == placed;
  }

  /** The previous section of a routine; the first starts from section zero. */
  function Previous(placed: seq<nat>, k: nat): nat
    requires k < |placed|
  {
    if k == 0 then 0 else placed[k - 1]
  }

  ghost predicate StepsByOne(placed: seq<nat>) {
    forall k :: 0 <= k < |placed| ==> Previous(placed, k) <= placed[k] <= Previous(placed, k) + 1
  }

  lemma StepsMore(placed: seq<nat>, t: nat)
    requires StepsByOne(placed)
    requires var last := if placed == [] then 0 else placed[|placed| - 1]; last <= t <= last + 1
    ensures StepsByOne(placed + [t])
  {
    var all := placed + [t];
    forall k | 0 <= k < |all|
      ensures Previous(all, k) <= all[k] <= Previous(all, k) + 1
    {
      if k < |placed| {
        assert Previous(all, k) == Previous(placed, k);
      }
    }
  }

  /** The sections filled so far: the current one holds the bytes in use, later ones are empty, none is too full. */
  ghost predicate Filled(head: nat, size: Sizes, l: Layout) {
    && l.used == SectionBytes(head, size, l.placed, l.section)
    && (forall s: nat :: SectionBytes(head, size, l.placed, s) <= CAPACITY)
    && (forall s: nat :: s > l.section ==> SectionBytes(head, size, l.placed, s) == 0)
  }

  /** Placing one more routine keeps the sections filled as they should be. */
  lemma PlacingFills(head: nat, size: Sizes, before: Layout, l: Layout)
    requires Filled(head, size, before) && l.placed == before.placed + [l.section] && before.section <= l.section
    requires l.used == size(|before.placed|, l.section) + (if l.section == before.section then before.used else 0) <= CAPACITY
    ensures Filled(head, size, l)
  {
    forall s: nat
      ensures SectionBytes(head, size, l.placed, s)
              == SectionBytes(head, size, before.placed, s) + if l.section == s then size(|before.placed|, s) else 0
    {
      BytesMore(head, size, before.placed, s, l.section);
    }
  }

  lemma NothingPlaced(head: nat, size: Sizes)
    requires head <= CAPACITY
    ensures StepsByOne([]) && Filled(head, size, Layout(0, head, []))
  {
  }

  /** What one sizing step does. */
  lemma OneStep(before: Layout, size: Sizes, bankLimit: nat)
    requires PackOne(before, size, bankLimit).Ok? && FIRST_BANK + before.section < bankLimit
    ensures var l := PackOne(before, size, bankLimit).value;
            && l.placed == before.placed + [l.section] && before.section <= l.section <= before.section + 1
            && l.used == size(|before.placed|, l.section) + (if l.section == before.section then before.used else 0) <= CAPACITY
            && FIRST_BANK + l.section < bankLimit
  {
  }

  /**
   Sections never hold more than their capacity, routine sections never decrease and rise by at
   most one, and sections not yet begun are empty.
   */
  lemma {:induction false} PackingFits(head: nat, size: Sizes, bankLimit: nat, n: nat)
    requires head <= CAPACITY && Packed(head, size, bankLimit, n).Ok?
    ensures var l := Packed(head, size, bankLimit, n).value;
            && |l.placed| == n && StepsByOne(l.placed)
            && l.section == (if n == 0 then 0 else l.placed[n - 1]) && FIRST_BANK + l.section < bankLimit
            && Filled(head, size, l)
  {
    hide PackOne, StepsByOne, SectionBytes;
    if n == 0 {
      NothingPlaced(head, size);
    } else {
      PackingFits(head, size, bankLimit, n - 1);
      var before := Packed(head, size, bankLimit, n - 1).value;
      var l := Packed(head, size, bankLimit, n).value;
      OneStep(before, size, bankLimit);
      StepsMore(before.placed, l.section);
      PlacingFills(head, size, before, l);
    }
  }

  ghost predicate NoGrowth(size: Sizes, size2: Sizes) {
    forall k: nat, s: nat :: size2(k, s) <= size(k, s)
  }

  /** A planned placement follows a sizing placement that was at least as large. */
  lemma PlanStep(l: Layout, r: Layout, plan: seq<nat>, size: Sizes, size2: Sizes, bankLimit: nat)
    requires NoGrowth(size, size2) && PackOne(l, size, bankLimit).Ok?
    requires r.placed == l.placed && r.section == l.section && r.used <= l.used
    requires |l.placed| < |plan| && plan[|l.placed|] == PackOne(l, size, bankLimit).value.section
    ensures var l', r' := PackOne(l, size, bankLimit).value, PlaceOne(r, plan, size2, bankLimit);
            r'.Ok? && r'.value.placed == l'.placed && r'.value.section == l'.section && r'.value.used <= l'.used
  {
    var k := |l.placed|;
    assert size2(k, l.section) <= size(k, l.section);
    assert size2(k, l.section + 1) <= size(k, l.section + 1);
  }

  lemma {:induction false} PackedGrows(head: nat, size: Sizes, bankLimit: nat, n: nat, m: nat)
    requires m <= n && Packed(head, size, bankLimit, n).Ok?
    ensures Packed(head, size, bankLimit, m).Ok? && |Packed(head, size, bankLimit, m).value.placed| == m
    ensures |Packed(head, size, bankLimit, n).value.placed| == n
    ensures m < n ==> Packed(head, size, bankLimit, m + 1).Ok?
                      && Packed(head, size, bankLimit, n).value.placed[m] == Packed(head, size, bankLimit, m + 1).value.section
    decreases n
  {
    if m < n {
      PackedGrows(head, size, bankLimit, n - 1, m);
    } else if n > 0 {
      PackedGrows(head, size, bankLimit, n - 1, n - 1);
    }
  }

  /** If nothing grows between the passes, the frozen plan is carried out to the letter and never overflows. */
  lemma {:induction false} FrozenPlanHolds(head: nat, size: Sizes, head2: nat, size2: Sizes, bankLimit: nat, n: nat, m: nat, plan: seq<nat>)
    requires head2 <= head && NoGrowth(size, size2) && m <= n
    requires Packed(head, size, bankLimit, n).Ok? && plan == Packed(head, size, bankLimit, n).value.placed
    ensures Packed(head, size, bankLimit, m).Ok?
    ensures var l := Packed(head, size, bankLimit, m).value;
            var r := Frozen(head2, plan, size2, bankLimit, m);
            && r.Ok? && r.value.placed == l.placed && r.value.section == l.section && r.value.used <= l.used
    decreases m
  {
    PackedGrows(head, size, bankLimit, n, m);
    if m > 0 {
      FrozenPlanHolds(head, size, head2, size2, bankLimit, n, m - 1, plan);
      PackedGrows(head, size, bankLimit, n, m - 1);
      PlanStep(Packed(head, size, bankLimit, m - 1).value, Frozen(head2, plan, size2, bankLimit, m - 1).value,
               plan, size, size2, bankLimit);
    }
  }

  /** Packing succeeds whenever each routine fits into a section of its own and there are banks for all. */
  lemma {:induction false} PackingSucceeds(head: nat, size: Sizes, bankLimit: nat, n: nat)
    requires forall k: nat, s: nat :: k < n ==> size(k, s) <= CAPACITY
    requires FIRST_BANK + n < bankLimit
    ensures Packed(head, size, bankLimit, n).Ok?
    ensures var l := Packed(head, size, bankLimit, n).value; |l.placed| == n && l.section <= n
  {
    if n > 0 {
      PackingSucceeds(head, size, bankLimit, n - 1);
    }
  }

  /** It fails only for want of a bank, or on a routine larger than a section. */
  lemma {:induction false} PackingFailsOnly(head: nat, size: Sizes, bankLimit: nat, n: nat)
    requires Packed(head, size, bankLimit, n).Err?
    ensures match Packed(head, size, bankLimit, n).error
            case NoBank(s) => FIRST_BANK + s >= bankLimit
            case RoutineTooBig(k) => k < n && exists s: nat :: size(k, s) > CAPACITY
            case _ => false
  {
    if n > 0 {
      if Packed(head, size, bankLimit, n - 1).Err? {
        PackingFailsOnly(head, size, bankLimit, n - 1);
      } else {
        OnePlacedEach(head, size, bankLimit, n - 1);
      }
    }
  }

  lemma {:induction false} OnePlacedEach(head: nat, size: Sizes, bankLimit: nat, n: nat)
    requires Packed(head, size, bankLimit, n).Ok?
    ensures |Packed(head, size, bankLimit, n).value.placed| == n
  {
    if n > 0 {
      OnePlacedEach(head, size, bankLimit, n - 1);
    }
  }

  ghost predicate SectionFree(size: Sizes) {
    forall k: nat, s: nat, t: nat :: size(k, s) == size(k, t)
  }

  /** With sizes that do not depend on the section, any two adjacent sections together hold more than one section can. */
  lemma {:induction false} AdjacentSectionsAreFull(head: nat, size: Sizes, bankLimit: nat, n: nat, s: nat)
    requires head <= CAPACITY && SectionFree(size) && Packed(head, size, bankLimit, n).Ok?
    requires s < Packed(head, size, bankLimit, n).value.section
    ensures var placed := Packed(head, size, bankLimit, n).value.placed;
            SectionBytes(head, size, placed, s) + SectionBytes(head, size, placed, s + 1) > CAPACITY
  {
    var l := Packed(head, size, bankLimit, n).value;
    var before := Packed(head, size, bankLimit, n - 1).value;
    BytesMore(head, size, before.placed, s, l.section);
    BytesMore(head, size, before.placed, s + 1, l.section);
    if s < before.section {
      AdjacentSectionsAreFull(head, size, bankLimit, n - 1, s);
    } else {
      CurrentAndNext(head, size, bankLimit, n - 1);
      NewSectionDidNotFit(before, l, size, bankLimit);
    }
  }

  /** The current section holds the bytes in use, and the next one is still empty. */
  lemma CurrentAndNext(head: nat, size: Sizes, bankLimit: nat, n: nat)
    requires head <= CAPACITY && Packed(head, size, bankLimit, n).Ok?
    ensures var l := Packed(head, size, bankLimit, n).value;
            && |l.placed| == n && SectionBytes(head, size, l.placed, l.section) == l.used
            && SectionBytes(head, size, l.placed, l.section + 1) == 0
  {
    PackingFits(head, size, bankLimit, n);
  }

  /** A routine that opens a section would have overflowed the one before. */
  lemma NewSectionDidNotFit(before: Layout, l: Layout, size: Sizes, bankLimit: nat)
    requires SectionFree(size) && PackOne(before, size, bankLimit) == Ok(l) && before.section < l.section
    ensures l.section == before.section + 1
    ensures before.used + size(|before.placed|, l.section) > CAPACITY
  {
    assert size(|before.placed|, before.section) == size(|before.placed|, l.section);
  }

  /** All bytes in sections `0..count`. */
  function TotalBytes(head: nat, size: Sizes, placed: seq<nat>, count: nat): nat {
    if count == 0 then 0 else TotalBytes(head, size, placed, count - 1) + SectionBytes(head, size, placed, count - 1)
  }

  /** So the number of sections is bounded by the total size: c sections hold more than c / 2 capacities. */
  lemma {:induction false} SectionCountBound(head: nat, size: Sizes, bankLimit: nat, n: nat, count: nat)
    requires head <= CAPACITY && SectionFree(size) && Packed(head, size, bankLimit, n).Ok?
    requires count <= Packed(head, size, bankLimit, n).value.section + 1
    ensures TotalBytes(head, size, Packed(head, size, bankLimit, n).value.placed, count) >= count / 2 * (CAPACITY + 1)
  {
    if count >= 2 {
      SectionCountBound(head, size, bankLimit, n, count - 2);
      AdjacentSectionsAreFull(head, size, bankLimit, n, count - 2);
      assert count / 2 == (count - 2) / 2 + 1;
    }
  }
}
