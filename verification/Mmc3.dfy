/** The MMC3 board: registers, bank decode, the A12 filter and the interrupt counter. */
module Mmc3Board {
  import opened Bytes
  import opened ByteBits

  datatype Mirroring = Vertical | Horizontal

  datatype Board = Board(
    prgBankCount: int,
    select: Byte,
    banks: seq<Byte>,
    mirroring: Mirroring,
    ramProtect: Byte,
    latch: Byte,
    counter: Byte,
    reload: bool,
    enabled: bool,
    pending: bool,
    a12High: bool,
    lowEdges: nat)
  {
    /** Accepted boards carry a power of two of 8 KiB PRG banks, from 4 to 64, and eight bank registers. */
    predicate Valid() {
      && (prgBankCount == 4 || prgBankCount == 8 || prgBankCount == 16 || prgBankCount == 32 || prgBankCount == 64)
      && |banks| == 8
    }

    function ClockCounter(): Board {
      var next := if counter == 0 || reload then latch else counter - 1;
      this.(counter := next, reload := false, pending := pending || (next == 0 && enabled))
    }
  }

  datatype Event = Write(addr: Address, value: Byte) | PpuAddress(addr: Address) | M2Falling

  function A12(addr: Address): bool {
    addr / 0x1000 % 2 == 1
  }

  /** It is address line 12. */
  lemma A12IsLine12(addr: Address)
    ensures A12(addr) <==> BitAt(addr, 12)
  {
    FourPlaces(addr, 8);
    FourPlaces(addr / 16, 4);
    FourPlaces(addr / 256, 0);
    assert addr / 16 / 16 == addr / 256 && addr / 256 / 16 == addr / 4096;
  }

  /** Register `group` is address bits 15-13, `odd` is bit 0. */
  predicate Selects(e: Event, group: int, odd: int) {
    e.Write? && e.addr >= 0x8000 && e.addr / 0x2000 == group && e.addr % 2 == odd
  }

  function WriteTo(b: Board, addr: Address, value: Byte): (r: Board)
    requires b.Valid()
    ensures r.Valid() && r.prgBankCount == b.prgBankCount
  {
    if addr < 0x8000 then b
    else
      var odd := addr % 2 == 1;
      match addr / 0x2000
      case 4 => if odd then b.(banks := b.banks[b.select % 8 := value]) else b.(select := value)
      case 5 => if odd then b.(ramProtect := value) else b.(mirroring := if value % 2 == 0 then Vertical else Horizontal)
      case 6 => if odd then b.(counter := 0, reload := true) else b.(latch := value)
      case _ => if odd then b.(enabled := true) else b.(enabled := false, pending := false)
  }

  function Observe(b: Board, addr: Address): Board {
    var high := A12(addr);
    var clocked := if high && !b.a12High && b.lowEdges >= 3 then b.ClockCounter() else b;
    clocked.(lowEdges := if high || b.a12High then 0 else b.lowEdges, a12High := high)
  }

  function Edge(b: Board): Board {
    if b.a12High then b else b.(lowEdges := if b.lowEdges + 1 < 3 then b.lowEdges + 1 else 3)
  }

  function Apply(b: Board, e: Event): (r: Board)
    requires b.Valid()
    ensures r.Valid() && r.prgBankCount == b.prgBankCount
  {
    match e
    case Write(addr, value) => WriteTo(b, addr, value)
    case PpuAddress(addr) => Observe(b, addr)
    case M2Falling => Edge(b)
  }

  function Run(b: Board, events: seq<Event>): (r: Board)
    requires b.Valid()
    ensures r.Valid() && r.prgBankCount == b.prgBankCount
  {
    if events == [] then b else Apply(Run(b, events[..|events| - 1]), events[|events| - 1])
  }

  /** Deterministic initial registers. */
  function PowerOn(prgBankCount: int, mirroring: Mirroring): Board {
    Board(prgBankCount, 0, seq(8, _ => 0), mirroring, 0, 0, 0, false, false, false, false, 0)
  }

  class Mmc3 {
    var prgBankCount: int
    var bankSelect: Byte
    var banks: seq<Byte>
    var mirroring: Mirroring
    var ramProtect: Byte
    var irqLatch: Byte
    var irqCounter: Byte
    var irqReload: bool
    var irqEnabled: bool
    var irqPending: bool
    var a12High: bool
    var a12LowM2Edges: nat

    function State(): Board
      reads this
    {
      Board(prgBankCount, bankSelect, banks, mirroring, ramProtect, irqLatch, irqCounter, irqReload, irqEnabled, irqPending,
            a12High, a12LowM2Edges)
    }

    constructor (count: int, wiring: Mirroring)
      ensures State() == PowerOn(count, wiring)
    {
      prgBankCount, bankSelect, banks, mirroring, ramProtect := count, 0, seq(8, _ => 0), wiring, 0;
      irqLatch, irqCounter, irqReload, irqEnabled, irqPending := 0, 0, false, false, false;
      a12High, a12LowM2Edges := false, 0;
    }

    method WriteRegister(addr: Address, value: Byte) returns (accepted: bool)
      requires State().Valid()
      modifies this
      ensures accepted <==> addr >= 0x8000
      ensures State() == Apply(old(State()), Write(addr, value))
    {
      if addr < 0x8000 {
        return false;
      }
      match addr / 0x2000 {
        case 4 =>
          if addr % 2 == 0 { bankSelect := value; } else { banks := banks[bankSelect % 8 := value]; }
        case 5 =>
          if addr % 2 == 0 { mirroring := if value % 2 == 0 then Vertical else Horizontal; } else { ramProtect := value; }
        case 6 =>
          if addr % 2 == 0 {
            irqLatch := value;
          } else {
            irqCounter := 0;
            irqReload := true;
          }
        case _ =>
          if addr % 2 == 0 {
            irqEnabled := false;
            irqPending := false;
          } else {
            irqEnabled := true;
          }
      }
      accepted := true;
    }

    method ObservePpuAddress(addr: Address)
      requires State().Valid()
      modifies this
      ensures State() == Apply(old(State()), PpuAddress(addr))
    {
      var high := A12(addr);
      if high && !a12High && a12LowM2Edges >= 3 {
        ClockIrqCounter();
      }
      if high || a12High {
        a12LowM2Edges := 0;
      }
      a12High := high;
    }

    method ClockM2FallingEdge()
      requires State().Valid()
      modifies this
      ensures State() == Apply(old(State()), M2Falling)
    {
      if !a12High {
        a12LowM2Edges := if a12LowM2Edges + 1 < 3 then a12LowM2Edges + 1 else 3;
      }
    }

    method ClockIrqCounter()
      modifies this`irqCounter, this`irqReload, this`irqPending
      ensures State() == old(State()).ClockCounter()
    {
      if irqCounter == 0 || irqReload {
        irqCounter := irqLatch;
      } else {
        irqCounter := irqCounter - 1;
      }
      irqReload := false;
      if irqCounter == 0 && irqEnabled {
        irqPending := true;
      }
    }
  }
}

/** The interrupt over arbitrary interleavings of writes, PPU addresses and M2 edges. */
module Mmc3Irq {
  import opened Bytes
  import opened Remainders
  import opened Mmc3Board

  // ----- the A12 filter -----

  /** The A12 level after a history that starts low. */
  function Level(h: seq<Event>): bool {
    if h == [] then false
    else if h[|h| - 1].PpuAddress? then A12(h[|h| - 1].addr)
    else Level(h[..|h| - 1])
  }

  function Edges(h: seq<Event>): nat {
    if h == [] then 0 else Edges(h[..|h| - 1]) + if h[|h| - 1].M2Falling? then 1 else 0
  }

  /** A12 has been low at every moment from `s` events on, and `s` is as early as possible. */
  ghost predicate LowSince(h: seq<Event>, s: nat) {
    && s <= |h|
    && (forall j {:trigger h[..j]} :: s <= j <= |h| ==> !Level(h[..j]))
    && (s == 0 || Level(h[..s - 1]))
  }

  function AtMost3(n: nat): nat {
    if n < 3 then n else 3
  }

  lemma LevelOfPrefix(h: seq<Event>, j: nat)
    requires j < |h|
    ensures h[..|h| - 1][..j] == h[..j] && h[..|h|] == h
  {
  }

  lemma LowSinceBefore(h: seq<Event>, s: nat)
    requires LowSince(h, s) && s < |h|
    ensures LowSince(h[..|h| - 1], s) && !Level(h) && !Level(h[..|h| - 1])
  {
    var before := h[..|h| - 1];
    assert h[..|h|] == h;
    forall j {:trigger before[..j]} | s <= j <= |before|
      ensures !Level(before[..j])
    {
      LevelOfPrefix(h, j);
    }
    if s > 0 {
      LevelOfPrefix(h, s - 1);
    }
  }

  lemma SuffixBefore(h: seq<Event>, s: nat)
    requires s < |h|
    ensures h[s..][..|h| - s - 1] == h[..|h| - 1][s..] && h[s..][|h| - s - 1] == h[|h| - 1]
  {
  }

  lemma WriteKeepsFilter(b: Board, addr: Address, value: Byte)
    requires b.Valid()
    ensures WriteTo(b, addr, value).a12High == b.a12High && WriteTo(b, addr, value).lowEdges == b.lowEdges
  {
  }

  /** What one event does to the filter. */
  lemma EventFilter(b: Board, e: Event)
    requires b.Valid()
    ensures var r := Apply(b, e);
            && r.a12High == (if e.PpuAddress? then A12(e.addr) else b.a12High)
            && r.lowEdges == (if e.Write? then b.lowEdges
                              else if e.PpuAddress? then (if A12(e.addr) || b.a12High then 0 else b.lowEdges)
                              else if b.a12High then b.lowEdges else AtMost3(b.lowEdges + 1))
  {
    if e.Write? {
      WriteKeepsFilter(b, e.addr, e.value);
    }
  }

  lemma {:induction false} LevelIsHistory(b: Board, h: seq<Event>)
    requires b.Valid() && !b.a12High && b.lowEdges == 0
    ensures Run(b, h).a12High == Level(h)
    ensures Level(h) ==> Run(b, h).lowEdges == 0
  {
    if h != [] {
      var before, e := h[..|h| - 1], h[|h| - 1];
      LevelIsHistory(b, before);
      EventFilter(Run(b, before), e);
    }
  }

  /** The edge count is a function of the history alone, whatever the rest of the board does. */
  lemma {:induction false} EdgesAreHistory(b: Board, h: seq<Event>, s: nat)
    requires b.Valid() && !b.a12High && b.lowEdges == 0 && LowSince(h, s)
    ensures Run(b, h).lowEdges == AtMost3(Edges(h[s..]))
  {
    if h != [] {
      var before, e := h[..|h| - 1], h[|h| - 1];
      LevelIsHistory(b, before);
      EventFilter(Run(b, before), e);
      assert h[..|h|] == h;
      if s == |h| {
        assert h[s..] == [];
      } else {
        LowSinceBefore(h, s);
        SuffixBefore(h, s);
        EdgesAreHistory(b, before, s);
      }
    }
  }

  predicate ClocksAt(b: Board, e: Event) {
    e.PpuAddress? && A12(e.addr) && !b.a12High && b.lowEdges >= 3
  }

  /** The next event clocks the counter exactly when it raises A12 after at least three M2 edges since A12 went low. */
  lemma ClocksExactlyOnFilteredRises(b: Board, h: seq<Event>, s: nat, e: Event)
    requires b.Valid() && !b.a12High && b.lowEdges == 0
    requires Level(h) || LowSince(h, s)
    ensures ClocksAt(Run(b, h), e) <==> e.PpuAddress? && A12(e.addr) && !Level(h) && Edges(h[if s <= |h| then s else 0..]) >= 3
    ensures ClocksAt(Run(b, h), e) ==> Run(b, h + [e]).counter == Run(b, h).ClockCounter().counter
    ensures !ClocksAt(Run(b, h), e) && !e.Write? ==>
              Run(b, h + [e]) == Run(b, h).(a12High := Run(b, h + [e]).a12High, lowEdges := Run(b, h + [e]).lowEdges)
  {
    LevelIsHistory(b, h);
    assert (h + [e])[..|h|] == h;
    if !Level(h) {
      EdgesAreHistory(b, h, s);
    }
  }

  /** A history that ends low has a moment since which it is low. */
  lemma {:induction false} LowSinceExists(h: seq<Event>) returns (s: nat)
    requires !Level(h)
    ensures LowSince(h, s)
  {
    assert h[..|h|] == h;
    if h == [] {
      s := 0;
    } else {
      var before := h[..|h| - 1];
      if Level(before) {
        s := |h|;
      } else {
        s := LowSinceExists(before);
        assert forall j :: s <= j <= |before| ==> before[..j] == h[..j];
        assert s > 0 ==> before[..s - 1] == h[..s - 1];
      }
    }
  }

  // ----- the counter -----

  /** The number of clocks a run delivers. */
  function Clocks(b: Board, events: seq<Event>): nat
    requires b.Valid()
  {
    if events == [] then 0
    else
      var n := |events| - 1;
      Clocks(b, events[..n]) + if ClocksAt(Run(b, events[..n]), events[n]) then 1 else 0
  }

  /** No write to the latch or the reload register. */
  predicate KeepsCounter(events: seq<Event>) {
    forall e :: e in events ==> LeavesCounter(e)
  }

  predicate LeavesCounter(e: Event) {
    !Selects(e, 6, 0) && !Selects(e, 6, 1)
  }

  predicate Acknowledges(e: Event) {
    Selects(e, 7, 0)
  }

  predicate KeepsLine(events: seq<Event>) {
    forall e :: e in events ==> !Acknowledges(e)
  }

  /** The counter `n >= 1` clocks after a reload with latch `l`. */
  function Counted(l: Byte, n: nat): Byte
    requires n >= 1
  {
    if n == 1 || Counted(l, n - 1) == 0 then l else Counted(l, n - 1) - 1
  }

  lemma {:induction false} CountedClosedForm(l: Byte, n: nat)
    requires n >= 1
    ensures Counted(l, n) == l - (n - 1) % (l + 1)
    ensures Counted(l, n) == 0 <==> n % (l + 1) == 0
  {
    if n > 1 {
      CountedClosedForm(l, n - 1);
      ModuloStep(n - 2, l + 1);
    }
    ModuloStep(n - 1, l + 1);
  }

  /** What one event that leaves latch and reload alone does to the interrupt registers. */
  lemma EventCounter(b: Board, e: Event)
    requires b.Valid() && LeavesCounter(e)
    ensures var r := Apply(b, e);
            && r.latch == b.latch
            && (!ClocksAt(b, e) ==> r.reload == b.reload && r.counter == b.counter)
            && (ClocksAt(b, e) ==> !r.reload && r.counter == if b.counter == 0 || b.reload then b.latch else b.counter - 1)
            && (!Acknowledges(e) && b.enabled ==> r.enabled && (r.pending <==> b.pending || (ClocksAt(b, e) && r.counter == 0)))
  {
    if e.Write? {
      WriteCounter(b, e.addr, e.value);
    } else if e.PpuAddress? {
      ObserveCounter(b, e.addr);
    }
  }

  lemma WriteCounter(b: Board, addr: Address, value: Byte)
    requires b.Valid() && LeavesCounter(Write(addr, value))
    ensures var r := WriteTo(b, addr, value);
            && r.latch == b.latch && r.reload == b.reload && r.counter == b.counter
            && (!Acknowledges(Write(addr, value)) && b.enabled ==> r.enabled && (r.pending <==> b.pending))
  {
  }

  lemma ObserveCounter(b: Board, addr: Address)
    ensures var r := Observe(b, addr);
            var c := if ClocksAt(b, PpuAddress(addr)) then b.ClockCounter() else b;
            r.latch == c.latch && r.reload == c.reload && r.counter == c.counter && r.enabled == c.enabled && r.pending == c.pending
  {
  }

  lemma {:induction false} CounterCounts(b: Board, events: seq<Event>)
    requires b.Valid() && b.reload && KeepsCounter(events)
    ensures var r := Run(b, events);
            var n := Clocks(b, events);
            && r.latch == b.latch
            && (n == 0 ==> r.reload && r.counter == b.counter)
            && (n > 0 ==> !r.reload && r.counter == Counted(b.latch, n))
  {
    if events != [] {
      var last := |events| - 1;
      var before := events[..last];
      CounterCounts(b, before);
      assert events[last] in events;
      EventCounter(Run(b, before), events[last]);
    }
  }

  /** L - ((n - 1) mod (L + 1)), which is zero exactly at the multiples of L + 1. */
  predicate Periodic(l: Byte, n: nat, counter: Byte) {
    && n >= 1 && counter == l - (n - 1) % (l + 1)
    && (counter == 0 <==> n % (l + 1) == 0)
  }

  /**
   With the reload flag set and latch L, and no later write to the latch or reload
   register, the counter after n clocks is L - ((n - 1) mod (L + 1)), however the
   clocks are spread over other writes, PPU addresses and edges.
   */
  lemma CounterClosedForm(b: Board, events: seq<Event>)
    requires b.Valid() && b.reload && KeepsCounter(events) && Clocks(b, events) >= 1
    ensures Periodic(b.latch, Clocks(b, events), Run(b, events).counter)
  {
    CounterCounts(b, events);
    ClosedFormOf(b.latch, Clocks(b, events), Run(b, events).counter);
  }

  lemma ClosedFormOf(l: Byte, n: nat, counter: Byte)
    requires n >= 1 && counter == Counted(l, n)
    ensures Periodic(l, n, counter)
  {
    CountedClosedForm(l, n);
  }

  /** Only an even write to $E000-$FFFF takes the line back. */
  lemma {:induction false} LineStays(b: Board, events: seq<Event>)
    requires b.Valid() && b.pending && KeepsLine(events)
    ensures Run(b, events).pending
  {
    if events != [] {
      LineStays(b, events[..|events| - 1]);
      assert events[|events| - 1] in events;
    }
  }

  /** The line comes up only at a clock that leaves the counter at zero while enabled. */
  lemma LineRisesOnlyAtZero(b: Board, e: Event)
    requires b.Valid() && !b.pending && Apply(b, e).pending
    ensures ClocksAt(b, e) && b.enabled && Apply(b, e).counter == 0
  {
  }

  /** The counter first reaches zero at clock L + 1. */
  lemma {:induction false} CountsDown(l: Byte, n: nat)
    requires 1 <= n <= l + 1
    ensures Counted(l, n) == l + 1 - n
  {
    if n > 1 {
      CountsDown(l, n - 1);
    }
  }

  /**
   From a reload with the interrupt enabled and not acknowledged, the line is up
   exactly when at least L + 1 clocks have come.
   */
  lemma {:induction false} LineUpExactlyAfterLatchPlusOne(b: Board, events: seq<Event>)
    requires b.Valid() && b.reload && b.enabled && !b.pending && KeepsCounter(events) && KeepsLine(events)
    ensures Run(b, events).enabled
    ensures Run(b, events).pending <==> Clocks(b, events) >= b.latch + 1
  {
    if events != [] {
      var last := |events| - 1;
      var before := events[..last];
      LineUpExactlyAfterLatchPlusOne(b, before);
      assert events[last] in events;
      CounterCounts(b, events);
      EventCounter(Run(b, before), events[last]);
      var n := Clocks(b, events);
      if 1 <= n <= b.latch + 1 {
        CountsDown(b.latch, n);
      }
    }
  }

  // ----- the period of the line -----

  ghost predicate MultipleIn(d: int, lo: nat, hi: nat)
    requires d > 0
  {
    exists m: nat :: lo < m <= hi && m % d == 0
  }

  lemma MultipleInMore(d: int, lo: nat, hi: nat)
    requires d > 0 && lo <= hi
    ensures !MultipleIn(d, lo, lo)
    ensures MultipleIn(d, lo, hi + 1) <==> MultipleIn(d, lo, hi) || (hi + 1) % d == 0
  {
  }

  /** `before`, an acknowledge, an enable, `after`. */
  function Rearmed(before: seq<Event>, ack: Byte, enable: Byte, after: seq<Event>): seq<Event> {
    before + [Write(0xE000, ack), Write(0xE001, enable)] + after
  }

  lemma RunMore(b: Board, events: seq<Event>, e: Event)
    requires b.Valid()
    ensures Run(b, events + [e]) == Apply(Run(b, events), e)
    ensures Clocks(b, events + [e]) == Clocks(b, events) + if ClocksAt(Run(b, events), e) then 1 else 0
  {
    assert (events + [e])[..|events|] == events;
  }

  lemma RearmedStart(b: Board, before: seq<Event>, ack: Byte, enable: Byte)
    requires b.Valid()
    ensures var events := Rearmed(before, ack, enable, []);
            && Run(b, events) == Run(b, before).(enabled := true, pending := false)
            && Clocks(b, events) == Clocks(b, before)
  {
    var first, second := Write(0xE000, ack), Write(0xE001, enable);
    WriteAfter(b, before, first);
    WriteAfter(b, before + [first], second);
    Rearms(Run(b, before), ack, enable);
    assert Rearmed(before, ack, enable, []) == before + [first] + [second];
  }

  lemma Rearms(b: Board, ack: Byte, enable: Byte)
    requires b.Valid()
    ensures WriteTo(WriteTo(b, 0xE000, ack), 0xE001, enable) == b.(enabled := true, pending := false)
  {
  }

  lemma WriteAfter(b: Board, events: seq<Event>, e: Event)
    requires b.Valid() && e.Write?
    ensures Run(b, events + [e]) == WriteTo(Run(b, events), e.addr, e.value) && Clocks(b, events + [e]) == Clocks(b, events)
  {
    RunMore(b, events, e);
  }

  lemma RearmedKeeps(before: seq<Event>, ack: Byte, enable: Byte, after: seq<Event>)
    requires KeepsCounter(before) && KeepsCounter(after)
    ensures KeepsCounter(Rearmed(before, ack, enable, after))
  {
  }

  /**
   Acknowledged and enabled again at any moment after a reload with latch L, the line next
   comes up at the next clock whose number is a multiple of L + 1: its period is L + 1.
   */
  lemma {:induction false} LinePeriod(b: Board, before: seq<Event>, ack: Byte, enable: Byte, after: seq<Event>)
    requires b.Valid() && b.reload && KeepsCounter(before) && KeepsCounter(after) && KeepsLine(after)
    ensures var events := Rearmed(before, ack, enable, after);
            && Run(b, events).enabled && Clocks(b, before) <= Clocks(b, events)
            && (Run(b, events).pending <==> MultipleIn(b.latch + 1, Clocks(b, before), Clocks(b, events)))
    decreases |after|
  {
    var events := Rearmed(before, ack, enable, after);
    if after == [] {
      RearmedStart(b, before, ack, enable);
      MultipleInMore(b.latch + 1, Clocks(b, before), Clocks(b, before));
    } else {
      var n := |after| - 1;
      var shorter := Rearmed(before, ack, enable, after[..n]);
      assert events == shorter + [after[n]];
      LinePeriod(b, before, ack, enable, after[..n]);
      LineStep(b, before, shorter, after[n]);
    }
  }

  lemma PeriodMore(l: Byte, lo: nat, hi: nat, counter: Byte)
    requires lo <= hi && Periodic(l, hi + 1, counter)
    ensures MultipleIn(l + 1, lo, hi + 1) <==> MultipleIn(l + 1, lo, hi) || counter == 0
  {
    MultipleInMore(l + 1, lo, hi);
  }

  lemma KeepsCounterMore(events: seq<Event>, e: Event)
    requires KeepsCounter(events) && LeavesCounter(e)
    ensures KeepsCounter(events + [e])
  {
  }

  /** A clock that leaves the counter at zero has a number that is a multiple of the period. */
  lemma ClockCloses(b: Board, lo: nat, events: seq<Event>, e: Event)
    requires b.Valid() && b.reload && KeepsCounter(events) && LeavesCounter(e) && ClocksAt(Run(b, events), e)
    requires lo <= Clocks(b, events)
    ensures var hi := Clocks(b, events) + 1;
            MultipleIn(b.latch + 1, lo, hi) <==> MultipleIn(b.latch + 1, lo, hi - 1) || Run(b, events + [e]).counter == 0
  {
    RunMore(b, events, e);
    KeepsCounterMore(events, e);
    CounterClosedForm(b, events + [e]);
    PeriodMore(b.latch, lo, Clocks(b, events), Run(b, events + [e]).counter);
  }

  lemma LineStep(b: Board, before: seq<Event>, events: seq<Event>, e: Event)
    requires b.Valid() && b.reload && KeepsCounter(events) && LeavesCounter(e) && !Acknowledges(e)
    requires Run(b, events).enabled && Clocks(b, before) <= Clocks(b, events)
    requires Run(b, events).pending <==> MultipleIn(b.latch + 1, Clocks(b, before), Clocks(b, events))
    ensures Run(b, events + [e]).enabled && Clocks(b, before) <= Clocks(b, events + [e])
    ensures Run(b, events + [e]).pending <==> MultipleIn(b.latch + 1, Clocks(b, before), Clocks(b, events + [e]))
  {
    hide Apply, ClocksAt, MultipleIn, Run, Clocks, KeepsCounter;
    RunMore(b, events, e);
    EventCounter(Run(b, events), e);
    if ClocksAt(Run(b, events), e) {
      ClockCloses(b, Clocks(b, before), events, e);
    }
  }

  /** An acknowledge, an enable and what follows them. */
  datatype Round = Round(ack: Byte, enable: Byte, events: seq<Event>)

  /** The events of an interrupt handler that rearms the line once a round. */
  function Served(rounds: seq<Round>): seq<Event> {
    if rounds == [] then []
    else
      var r := rounds[|rounds| - 1];
      Rearmed(Served(rounds[..|rounds| - 1]), r.ack, r.enable, r.events)
  }

  /** Round `i` ends with the event that brings the line up. */
  ghost predicate EndsAtRise(b: Board, rounds: seq<Round>, i: nat)
    requires b.Valid() && i < |rounds|
  {
    var r, before := rounds[i], Served(rounds[..i]);
    && r.events != [] && KeepsCounter(r.events) && KeepsLine(r.events)
    && !Run(b, Rearmed(before, r.ack, r.enable, r.events[..|r.events| - 1])).pending
    && Run(b, Rearmed(before, r.ack, r.enable, r.events)).pending
  }

  lemma MultipleOf(d: int, k: nat)
    requires d > 0
    ensures k * d % d == 0
  {
    var q, r := k * d / d, k * d % d;
    assert (k - q) * d == r;
    if k - q >= 1 { Ordered(d, 1, k - q); }
    if k < q { Ordered(d, 1, q - k); }
  }

  lemma Ordered(d: int, j: int, k: int)
    requires d > 0 && j <= k
    ensures j * d <= k * d
  {
  }

  /** The first multiple of `d` beyond a multiple of it. */
  lemma NextMultiple(d: int, k: nat, hi: nat)
    requires d > 0 && hi >= 1 && k * d <= hi - 1 && MultipleIn(d, k * d, hi) && !MultipleIn(d, k * d, hi - 1)
    ensures hi == (k + 1) * d
  {
    MultipleInMore(d, k * d, hi - 1);
    var q := hi / d;
    assert hi == q * d;
    assert (k + 1) * d % d == 0 by { MultipleOf(d, k + 1); }
    if q <= k { Ordered(d, q, k); }
    if q > k + 1 { Ordered(d, k + 2, q); }
  }

  /** One more clock, and the first multiple is there. */
  lemma FirstAtMultiple(d: int, k: nat, earlier: nat, hi: nat)
    requires d > 0 && k * d <= earlier <= hi <= earlier + 1
    requires !MultipleIn(d, k * d, earlier) && MultipleIn(d, k * d, hi)
    ensures hi == (k + 1) * d
  {
    if hi == earlier + 1 {
      NextMultiple(d, k, hi);
    }
  }

  lemma OneRound(b: Board, before: seq<Event>, r: Round, k: nat)
    requires b.Valid() && b.reload && KeepsCounter(before) && Clocks(b, before) == k * (b.latch + 1)
    requires r.events != [] && KeepsCounter(r.events) && KeepsLine(r.events)
    requires !Run(b, Rearmed(before, r.ack, r.enable, r.events[..|r.events| - 1])).pending
    requires Run(b, Rearmed(before, r.ack, r.enable, r.events)).pending
    ensures Clocks(b, Rearmed(before, r.ack, r.enable, r.events)) == (k + 1) * (b.latch + 1)
  {
    var last := |r.events| - 1;
    var short := r.events[..last];
    assert r.events == short + [r.events[last]];
    LinePeriod(b, before, r.ack, r.enable, short);
    LinePeriod(b, before, r.ack, r.enable, r.events);
    assert Rearmed(before, r.ack, r.enable, r.events) == Rearmed(before, r.ack, r.enable, short) + [r.events[last]];
    RunMore(b, Rearmed(before, r.ack, r.enable, short), r.events[last]);
    FirstAtMultiple(b.latch + 1, k, Clocks(b, Rearmed(before, r.ack, r.enable, short)),
                    Clocks(b, Rearmed(before, r.ack, r.enable, r.events)));
  }

  /**
   A handler that acknowledges and enables again whenever the line is up is served every L + 1
   clocks: after n rounds exactly n (L + 1) clocks have come since the reload.
   */
  lemma {:induction false} EveryRoundTakesOnePeriod(b: Board, rounds: seq<Round>)
    requires b.Valid() && b.reload
    requires forall i :: 0 <= i < |rounds| ==> EndsAtRise(b, rounds, i)
    ensures KeepsCounter(Served(rounds))
    ensures Clocks(b, Served(rounds)) == |rounds| * (b.latch + 1)
  {
    if rounds != [] {
      var n := |rounds| - 1;
      var before := rounds[..n];
      forall i | 0 <= i < n
        ensures EndsAtRise(b, before, i)
      {
        assert EndsAtRise(b, rounds, i) && before[..i] == rounds[..i];
      }
      EveryRoundTakesOnePeriod(b, before);
      assert EndsAtRise(b, rounds, n);
      RearmedKeeps(Served(before), rounds[n].ack, rounds[n].enable, rounds[n].events);
      OneRound(b, Served(before), rounds[n], n);
    }
  }
}

/** Every register of the board over arbitrary histories: the last value written where its address lines select it. */
module Mmc3Registers {
  import opened Bytes
  import opened ByteBits
  import opened Mmc3Board

  /** A write with address lines A15 to A13 and A0 as given. */
  predicate Reaches(e: Event, block: int, odd: bool) {
    e.Write? && e.addr / 0x2000 == block && BitAt(e.addr, 0) == odd
  }

  /** The last value written there, or what was there before. */
  function LastValue(events: seq<Event>, block: int, odd: bool, initial: Byte): Byte {
    if events == [] then initial
    else
      var e := events[|events| - 1];
      if Reaches(e, block, odd) then e.value else LastValue(events[..|events| - 1], block, odd, initial)
  }

  /** The value last written to $8001 while the last value written to $8000 selected register `i`. */
  function LastBank(b: Board, events: seq<Event>, i: nat): Byte
    requires |b.banks| == 8 && i < 8
  {
    if events == [] then b.banks[i]
    else
      var e, before := events[|events| - 1], events[..|events| - 1];
      if Reaches(e, 4, true) && LastValue(before, 4, false, b.select) % 8 == i then e.value else LastBank(b, before, i)
  }

  /** Whether the last write to the $E000 block was odd. */
  function LastEnables(events: seq<Event>, initial: bool): bool {
    if events == [] then initial
    else
      var e := events[|events| - 1];
      if Reaches(e, 7, true) then true
      else if Reaches(e, 7, false) then false
      else LastEnables(events[..|events| - 1], initial)
  }

  predicate SameRegisters(b: Board, r: Board) {
    && r.select == b.select && r.banks == b.banks && r.mirroring == b.mirroring && r.ramProtect == b.ramProtect
    && r.latch == b.latch && r.enabled == b.enabled
  }

  lemma OthersKeepRegisters(b: Board, e: Event)
    requires b.Valid() && (!e.Write? || e.addr < 0x8000)
    ensures SameRegisters(b, Apply(b, e))
  {
  }

  /** Some event reaches the mirroring register. */
  predicate Mirrors(events: seq<Event>) {
    exists i :: 0 <= i < |events| && Reaches(events[i], 5, false)
  }

  lemma MirrorsMore(events: seq<Event>)
    requires events != []
    ensures Mirrors(events) <==> Mirrors(events[..|events| - 1]) || Reaches(events[|events| - 1], 5, false)
  {
    var before := events[..|events| - 1];
    if Mirrors(before) {
      var i :| 0 <= i < |before| && Reaches(before[i], 5, false);
      assert events[i] == before[i];
    }
    if Mirrors(events) {
      var i :| 0 <= i < |events| && Reaches(events[i], 5, false);
      assert i < |before| ==> before[i] == events[i];
    }
  }

  /** What one write does to the registers. */
  ghost predicate WritesRegisters(b: Board, e: Event, r: Board)
    requires |b.banks| == 8
  {
    && r.select == (if Reaches(e, 4, false) then e.value else b.select)
    && r.banks == (if Reaches(e, 4, true) then b.banks[b.select % 8 := e.value] else b.banks)
    && r.mirroring == (if !Reaches(e, 5, false) then b.mirroring else if BitAt(e.value, 0) then Horizontal else Vertical)
    && r.ramProtect == (if Reaches(e, 5, true) then e.value else b.ramProtect)
    && r.latch == (if Reaches(e, 6, false) then e.value else b.latch)
    && r.enabled == (if Reaches(e, 7, true) then true else if Reaches(e, 7, false) then false else b.enabled)
  }

  lemma Parity(x: nat)
    ensures BitAt(x, 0) <==> x % 2 == 1
  {
  }

  lemma OneWrite(b: Board, e: Event)
    requires b.Valid() && e.Write? && e.addr >= 0x8000
    ensures WritesRegisters(b, e, Apply(b, e))
  {
    hide BitAt;
    Parity(e.addr);
    Parity(e.value);
    var block := e.addr / 0x2000;
    assert 4 <= block <= 7;
    match block
    case 4 =>
    case 5 =>
    case 6 =>
    case 7 =>
  }

  /** Over any history each register holds the last value written to it, and the mirroring follows the last one's lowest bit. */
  lemma {:induction false} RegistersAreHistory(b: Board, events: seq<Event>)
    requires b.Valid()
    ensures var r := Run(b, events);
            && r.select == LastValue(events, 4, false, b.select)
            && r.ramProtect == LastValue(events, 5, true, b.ramProtect)
            && r.latch == LastValue(events, 6, false, b.latch)
            && r.enabled == LastEnables(events, b.enabled)
            && (if Mirrors(events) then r.mirroring == (if BitAt(LastValue(events, 5, false, 0), 0) then Horizontal else Vertical)
                else r.mirroring == b.mirroring)
  {
    hide Apply, BitAt;
    if events != [] {
      var e, before := events[|events| - 1], events[..|events| - 1];
      RegistersAreHistory(b, before);
      MirrorsMore(events);
      if e.Write? && e.addr >= 0x8000 {
        OneWrite(Run(b, before), e);
      } else {
        OthersKeepRegisters(Run(b, before), e);
      }
    }
  }

  /** And each bank register the last one written while it was selected. */
  lemma {:induction false} BanksAreHistory(b: Board, events: seq<Event>, i: nat)
    requires b.Valid() && i < 8
    ensures Run(b, events).banks[i] == LastBank(b, events, i)
  {
    hide Apply, BitAt;
    if events != [] {
      var e, before := events[|events| - 1], events[..|events| - 1];
      BanksAreHistory(b, before, i);
      RegistersAreHistory(b, before);
      if e.Write? && e.addr >= 0x8000 {
        OneWrite(Run(b, before), e);
      } else {
        OthersKeepRegisters(Run(b, before), e);
      }
    }
  }

  /** Accepted boards carry a power of two of 8 KiB banks, from four to sixty-four. */
  lemma AcceptedBankCounts(count: int, wiring: Mirroring)
    ensures PowerOn(count, wiring).Valid() <==> exists k: nat :: 2 <= k <= 6 && count == Power2(k)
  {
    assert Power2(1) == 2 * Power2(0) && Power2(2) == 2 * Power2(1) && Power2(3) == 2 * Power2(2);
    assert Power2(4) == 2 * Power2(3) && Power2(5) == 2 * Power2(4) && Power2(6) == 2 * Power2(5);
    if k: nat :| 2 <= k <= 6 && count == Power2(k) {
      assert k == 2 || k == 3 || k == 4 || k == 5 || k == 6;
    }
    if PowerOn(count, wiring).Valid() {
      assert count == Power2(2) || count == Power2(3) || count == Power2(4) || count == Power2(5) || count == Power2(6);
    }
  }

  /** At power-on every register is zero, counting and the line are off, and the filter is at rest. */
  lemma PowerOnIsQuiet(count: int, wiring: Mirroring)
    requires PowerOn(count, wiring).Valid()
    ensures var b := PowerOn(count, wiring);
            && b.prgBankCount == count && b.mirroring == wiring && b.select == 0 && b.ramProtect == 0 && b.latch == 0 && b.counter == 0
            && !b.reload && !b.enabled && !b.pending && !b.a12High && b.lowEdges == 0
            && forall i :: 0 <= i < 8 ==> b.banks[i] == 0
  {
  }
}
