/** The VRC4 interrupt: an up-counter stepped once per scanline or by a three-dot prescaler. */
module Vrc4Irq {
  import opened Bytes
  import opened ByteBits
  import opened Remainders

  datatype State = State(
    latch: Byte, counter: Byte, enabled: bool, enableAfterAck: bool, cycleMode: bool, prescaler: nat, pending: bool)
  {
    function Step(): State {
      if counter == 0xFF then this.(counter := latch, pending := true) else this.(counter := counter + 1)
    }

    function Steps(n: nat): State {
      if n == 0 then this else Steps(n - 1).Step()
    }

    /** One scanline: 341 dots, three to a cycle, the remainder carried over. */
    function Scanline(): State {
      if !enabled then this
      else if cycleMode then Steps((prescaler + 341) / 3).(prescaler := (prescaler + 341) % 3)
      else Step()
    }

    function Scanlines(k: nat): State {
      if k == 0 then this else Scanlines(k - 1).Scanline()
    }
  }

  /** The sub-register of a $x000 block: A0|A2 and A1|A3, exchanged on boards that swap the lines. */
  function RegSelect(addr: Address, swapLines: bool): int {
    var a := if addr % 2 == 1 || addr / 4 % 2 == 1 then 1 else 0;
    var b := if addr / 2 % 2 == 1 || addr / 8 % 2 == 1 then 1 else 0;
    if swapLines then b + 2 * a else a + 2 * b
  }

  /** The two select bits are wired lines: either of A0 and A2, and either of A1 and A3, the other way round on swapped boards. */
  lemma SelectLines(addr: Address, swapLines: bool)
    ensures 0 <= RegSelect(addr, swapLines) < 4
    ensures BitAt(RegSelect(addr, swapLines), if swapLines then 1 else 0) <==> BitAt(addr, 0) || BitAt(addr, 2)
    ensures BitAt(RegSelect(addr, swapLines), if swapLines then 0 else 1) <==> BitAt(addr, 1) || BitAt(addr, 3)
  {
    var a1 := addr / 2; var a2 := a1 / 2; var a3 := a2 / 2;
    assert a2 == addr / 4 && a3 == addr / 8;
    assert BitAt(addr, 1) == BitAt(a1, 0) && BitAt(addr, 2) == BitAt(a1, 1) == BitAt(a2, 0);
    assert BitAt(addr, 3) == BitAt(a1, 2) == BitAt(a2, 1) == BitAt(a3, 0);
    SelectedBits(RegSelect(addr, swapLines));
  }

  lemma SelectedBits(sel: int)
    requires 0 <= sel < 4
    ensures BitAt(sel, 0) <==> sel == 1 || sel == 3
    ensures BitAt(sel, 1) <==> sel >= 2
  {
    assert BitAt(sel, 1) == BitAt(sel / 2, 0);
  }

  /** A write to the $F000 block: latch nibbles, control, acknowledge. */
  function WriteIrq(s: State, sel: int, value: Byte): State {
    if sel == 0 then s.(latch := s.latch / 16 * 16 + value % 16)
    else if sel == 1 then s.(latch := s.latch % 16 + 16 * (value % 16))
    else if sel == 2 then
      var c := s.(enableAfterAck := value % 2 == 1, enabled := value / 2 % 2 == 1, cycleMode := value / 4 % 2 == 1, pending := false);
      if c.enabled then c.(counter := c.latch, prescaler := 0) else c
    else s.(pending := false, enabled := s.enableAfterAck)
  }

  /** One register write; only the $F000 block concerns the interrupt. */
  function Written(s: State, addr: Address, value: Byte, swapLines: bool): State {
    if addr / 0x1000 == 0xF then WriteIrq(s, RegSelect(addr, swapLines), value) else s
  }

  class Vrc {
    const swapLines: bool
    var irqLatch: Byte
    var irqCounter: Byte
    var irqEnabled: bool
    var irqEnableAfterAck: bool
    var irqCycleMode: bool
    var irqPrescaler: nat
    var irqPending: bool

    function Irq(): State
      reads this
    {
      State(irqLatch, irqCounter, irqEnabled, irqEnableAfterAck, irqCycleMode, irqPrescaler, irqPending)
    }

    constructor (swap: bool)
      ensures swapLines == swap && Irq() == State(0, 0, false, false, false, 0, false)
    {
      swapLines := swap;
      irqLatch, irqCounter, irqEnabled, irqEnableAfterAck, irqCycleMode, irqPrescaler, irqPending := 0, 0, false, false, false, 0, false;
    }

    /** The interrupt registers' part of `write_register`. */
    method WriteRegister(addr: Address, value: Byte)
      modifies this
      ensures Irq() == Written(old(Irq()), addr, value, swapLines)
    {
      if addr / 0x1000 != 0xF {
        return;
      }
      var sel := RegSelect(addr, swapLines);
      if sel == 0 {
        irqLatch := irqLatch / 16 * 16 + value % 16;
      } else if sel == 1 {
        irqLatch := irqLatch % 16 + 16 * (value % 16);
      } else if sel == 2 {
        irqEnableAfterAck := value % 2 == 1;
        irqEnabled := value / 2 % 2 == 1;
        irqCycleMode := value / 4 % 2 == 1;
        irqPending := false;
        if irqEnabled {
          irqCounter := irqLatch;
          irqPrescaler := 0;
        }
      } else {
        irqPending := false;
        irqEnabled := irqEnableAfterAck;
      }
    }

    method IrqStepCounter()
      modifies this`irqCounter, this`irqPending
      ensures Irq() == old(Irq()).Step()
    {
      if irqCounter == 0xFF {
        irqCounter := irqLatch;
        irqPending := true;
      } else {
        irqCounter := irqCounter + 1;
      }
    }

    method IrqScanline() returns (asserted: bool)
      modifies this
      ensures Irq() == old(Irq()).Scanline()
      ensures asserted <==> Irq().enabled && Irq().pending
    {
      if irqEnabled {
        if irqCycleMode {
          irqPrescaler := irqPrescaler + 341;
          ghost var total := irqPrescaler;
          ghost var steps := 0;
          ghost var start := Irq();
          while irqPrescaler >= 3
            invariant total == 3 * steps + irqPrescaler
            invariant Irq() == start.Steps(steps).(prescaler := irqPrescaler)
          {
            irqPrescaler := irqPrescaler - 3;
            IrqStepCounter();
            steps := steps + 1;
            PrescalerIsPassive(start.Steps(steps - 1), irqPrescaler);
          }
          assert steps == total / 3;
          StepsKeepPrescaler(old(Irq()), total, steps);
        } else {
          IrqStepCounter();
        }
      }
      asserted := irqEnabled && irqPending;
    }
  }

  lemma PrescalerIsPassive(s: State, p: nat)
    ensures s.(prescaler := p).Step() == s.Step().(prescaler := p)
  {
  }

  lemma {:induction false} StepsKeepPrescaler(s: State, p: nat, n: nat)
    ensures s.(prescaler := p).Steps(n) == s.Steps(n).(prescaler := p)
  {
    if n > 0 {
      StepsKeepPrescaler(s, p, n - 1);
      PrescalerIsPassive(s.Steps(n - 1), p);
    }
  }

  /** Just after a control write enabled the interrupt. */
  predicate Started(s: State) {
    s.enabled && s.counter == s.latch && s.prescaler == 0 && !s.pending
  }

  /** A control write with the enable bit set starts the counter, in the mode of its bit 2. */
  lemma ControlStarts(s: State, value: Byte)
    requires value / 2 % 2 == 1
    ensures Started(WriteIrq(s, 2, value)) && WriteIrq(s, 2, value).latch == s.latch
    ensures WriteIrq(s, 2, value).cycleMode <==> value / 4 % 2 == 1
  {
  }

  /**
   After a control write and any scanlines an acknowledge takes the line down and enables counting
   again exactly when bit 0 of the control value asks for it; nothing else changes.
   */
  lemma AcknowledgeRestores(s: State, control: Byte, k: nat, any: Byte)
    ensures var before := WriteIrq(s, 2, control).Scanlines(k);
            WriteIrq(before, 3, any) == before.(pending := false, enabled := BitAt(control, 0))
  {
    ScanlinesKeepSettings(WriteIrq(s, 2, control), k);
  }

  lemma {:induction false} ScanlinesKeepSettings(s: State, k: nat)
    ensures var r := s.Scanlines(k);
            r.latch == s.latch && r.enabled == s.enabled && r.enableAfterAck == s.enableAfterAck && r.cycleMode == s.cycleMode
    decreases k
  {
    if k > 0 {
      ScanlinesKeepSettings(s, k - 1);
      ScanlineKeepsSettings(s.Scanlines(k - 1));
    }
  }

  lemma ScanlineKeepsSettings(s: State)
    ensures var r := s.Scanline();
            r.latch == s.latch && r.enabled == s.enabled && r.enableAfterAck == s.enableAfterAck && r.cycleMode == s.cycleMode
  {
    if s.enabled && s.cycleMode {
      StepsKeepSettings(s, (s.prescaler + 341) / 3);
    }
  }

  lemma {:induction false} StepsKeepSettings(s: State, n: nat)
    ensures var r := s.Steps(n);
            r.latch == s.latch && r.enabled == s.enabled && r.enableAfterAck == s.enableAfterAck && r.cycleMode == s.cycleMode
    decreases n
  {
    if n > 0 {
      StepsKeepSettings(s, n - 1);
    }
  }

  /** The two nibble writes set the latch and nothing else. */
  lemma LatchFromNibbles(s: State, low: Byte, high: Byte)
    ensures WriteIrq(WriteIrq(s, 0, low), 1, high) == s.(latch := low % 16 + 16 * (high % 16))
  {
  }

  /** The steps that `k` scanlines make, by the mode bit of the control value. */
  function StepsMade(control: Byte, k: nat): nat {
    if control / 4 % 2 == 1 then 341 * k / 3 else k
  }

  /**
   From any state, a control write that enables the interrupt and k scanlines: it has fired
   iff the steps made, floor(341 k / 3) of them in cycle mode, reach 256 - latch.
   */
  lemma ControlThenScanlines(s: State, value: Byte, k: nat)
    requires value / 2 % 2 == 1
    ensures WriteIrq(s, 2, value).Scanlines(k).pending <==> StepsMade(value, k) >= 256 - s.latch
  {
    ControlStarts(s, value);
    if value / 4 % 2 == 1 {
      CycleModeClosedForm(WriteIrq(s, 2, value), k);
    } else {
      ScanlineModeClosedForm(WriteIrq(s, 2, value), k);
    }
  }

  /** The latch nibbles and the control value written at the addresses the board decodes. */
  function Programmed(s: State, low: Byte, high: Byte, control: Byte, swapLines: bool): State {
    var latched := Written(Written(s, 0xF000, low, swapLines), if swapLines then 0xF002 else 0xF001, high, swapLines);
    Written(latched, if swapLines then 0xF001 else 0xF002, control, swapLines)
  }

  lemma AddressesSelect(swapLines: bool)
    ensures RegSelect(0xF000, swapLines) == 0
    ensures RegSelect(if swapLines then 0xF002 else 0xF001, swapLines) == 1
    ensures RegSelect(if swapLines then 0xF001 else 0xF002, swapLines) == 2
  {
  }

  lemma ProgrammedState(s: State, low: Byte, high: Byte, control: Byte, swapLines: bool)
    ensures Programmed(s, low, high, control, swapLines) == WriteIrq(s.(latch := low % 16 + 16 * (high % 16)), 2, control)
  {
    AddressesSelect(swapLines);
    LatchFromNibbles(s, low, high);
  }

  /**
   From any state and with either order of the address lines: three register writes and k
   scanlines have fired the interrupt iff the steps made reach 256 less the written latch.
   */
  lemma ProgrammedThenScanlines(s: State, low: Byte, high: Byte, control: Byte, swapLines: bool, k: nat)
    requires control / 2 % 2 == 1
    ensures Programmed(s, low, high, control, swapLines).Scanlines(k).pending
            <==> StepsMade(control, k) >= 256 - (low % 16 + 16 * (high % 16))
  {
    ProgrammedState(s, low, high, control, swapLines);
    ControlThenScanlines(s.(latch := low % 16 + 16 * (high % 16)), control, k);
  }

  /** `n` steps from the latch: the counter runs through 256 - latch values and fires at the last. */
  lemma {:induction false} StepsClosedForm(s: State, n: nat)
    requires Started(s)
    ensures var r := s.Steps(n);
            && r == s.(counter := r.counter, pending := r.pending)
            && r.counter == s.latch + n % (256 - s.latch)
            && (r.pending <==> n >= 256 - s.latch)
  {
    if n > 0 {
      StepsClosedForm(s, n - 1);
      ModuloStep(n - 1, 256 - s.latch);
      Below(n - 1, 256 - s.latch);
      Below(n, 256 - s.latch);
    }
  }

  lemma Below(n: nat, d: int)
    requires d > 0
    ensures n < d ==> n % d == n
    ensures n == d ==> n % d == 0
  {
  }

  lemma {:induction false} StepsAdd(s: State, m: nat, n: nat)
    ensures s.Steps(m).Steps(n) == s.Steps(m + n)
  {
    if n > 0 {
      StepsAdd(s, m, n - 1);
    }
  }

  lemma DotsAdd(n: nat, m: nat)
    requires m == n + 341
    ensures n / 3 + (n % 3 + 341) / 3 == m / 3 && (n % 3 + 341) % 3 == m % 3
  {
  }

  lemma OneMoreScanline(s: State, before: nat, dots: nat)
    requires Started(s) && s.cycleMode
    ensures s.Steps(before).(prescaler := dots).Scanline() == s.Steps(before + (dots + 341) / 3).(prescaler := (dots + 341) % 3)
  {
    StepsClosedForm(s, before);
    StepsKeepPrescaler(s.Steps(before), dots, (dots + 341) / 3);
    StepsAdd(s, before, (dots + 341) / 3);
  }

  lemma {:induction false} CycleModeState(s: State, k: nat)
    requires Started(s) && s.cycleMode
    ensures s.Scanlines(k) == s.Steps(341 * k / 3).(prescaler := 341 * k % 3)
  {
    if k > 0 {
      CycleModeState(s, k - 1);
      var before, dots: nat := 341 * (k - 1) / 3, 341 * (k - 1) % 3;
      OneMoreScanline(s, before, dots);
      DotsAdd(341 * (k - 1), 341 * k);
    }
  }

  /**
   After k scanlines in cycle mode the counter has made exactly floor(341 k / 3) steps and the
   prescaler holds 341 k mod 3, so the interrupt has fired iff those steps reach 256 - latch.
   */
  lemma CycleModeClosedForm(s: State, k: nat)
    requires Started(s) && s.cycleMode
    ensures s.Scanlines(k) == s.Steps(341 * k / 3).(prescaler := 341 * k % 3)
    ensures s.Scanlines(k).pending <==> 341 * k / 3 >= 256 - s.latch
  {
    CycleModeState(s, k);
    StepsClosedForm(s, 341 * k / 3);
  }

  /** In scanline mode k scanlines make k steps. */
  lemma {:induction false} ScanlineModeClosedForm(s: State, k: nat)
    requires Started(s) && !s.cycleMode
    ensures s.Scanlines(k) == s.Steps(k)
    ensures s.Scanlines(k).pending <==> k >= 256 - s.latch
  {
    StepsClosedForm(s, k);
    if k > 0 {
      ScanlineModeClosedForm(s, k - 1);
      StepsClosedForm(s, k - 1);
    }
  }
}

/** The FME-7 interrupt: a sixteen-bit down-counter taking 114 off per scanline. */
module Fme7Irq {
  import opened Bytes

  datatype State = State(command: Byte, counterEnabled: bool, irqEnabled: bool, counter: Address, pending: bool)
  {
    /** A parameter for the selected command; commands below $D select banks and mirroring. */
    function Parameter(value: Byte): State {
      if command < 0xD then this
      else if command == 0xD then this.(counterEnabled := value >= 128, irqEnabled := value % 2 == 1, pending := false)
      else if command == 0xE then this.(counter := counter / 256 * 256 + value)
      else this.(counter := counter % 256 + 256 * value)
    }

    function Written(addr: Address, value: Byte): State {
      if addr / 0x2000 == 4 then this.(command := value % 16)
      else if addr / 0x2000 == 5 then Parameter(value)
      else this
    }

    predicate Asserted() {
      irqEnabled && pending
    }

    function Scanline(): State {
      if !counterEnabled then this
      else
        var after := WrapAddress(counter - 114);
        this.(counter := after, pending := pending || after > counter)
    }

    function Scanlines(n: nat): State {
      if n == 0 then this else Scanlines(n - 1).Scanline()
    }
  }

  class Fme7 {
    var command: Byte
    var irqCounterEnabled: bool
    var irqEnabled: bool
    var irqCounter: Address
    var irqPending: bool

    function Irq(): State
      reads this
    {
      State(command, irqCounterEnabled, irqEnabled, irqCounter, irqPending)
    }

    constructor ()
      ensures Irq() == State(0, false, false, 0, false)
    {
      command, irqCounterEnabled, irqEnabled, irqCounter, irqPending := 0, false, false, 0, false;
    }

    /** The interrupt registers' part of `write_register`. */
    method WriteRegister(addr: Address, value: Byte)
      modifies this
      ensures Irq() == old(Irq()).Written(addr, value)
    {
      if addr / 0x2000 == 4 {
        command := value % 16;
      } else if addr / 0x2000 == 5 {
        ApplyParameter(value);
      }
    }

    method ApplyParameter(value: Byte)
      modifies this`irqCounterEnabled, this`irqEnabled, this`irqCounter, this`irqPending
      ensures Irq() == old(Irq()).Parameter(value)
    {
      if command == 0xD {
        irqCounterEnabled := value >= 128;
        irqEnabled := value % 2 == 1;
        irqPending := false;
      } else if command == 0xE {
        irqCounter := irqCounter / 256 * 256 + value;
      } else if command > 0xE {
        irqCounter := irqCounter % 256 + 256 * value;
      }
    }

    method IrqScanline() returns (asserted: bool)
      modifies this`irqCounter, this`irqPending
      ensures Irq() == old(Irq()).Scanline()
      ensures asserted <==> Irq().Asserted()
    {
      if irqCounterEnabled {
        var before := irqCounter;
        irqCounter := WrapAddress(irqCounter as int - 114);
        if irqCounter > before {
          irqPending := true;
        }
      }
      asserted := irqEnabled && irqPending;
    }
  }

  /** From start value c the interrupt is latched after n scanlines exactly when 114 n > c. */
  lemma {:induction false} LatchesWhenExhausted(s: State, n: nat)
    requires s.counterEnabled && !s.pending
    ensures var r := s.Scanlines(n);
            && r.counterEnabled && r.irqEnabled == s.irqEnabled && r.counter == WrapAddress(s.counter - 114 * n)
            && (r.pending <==> 114 * n > s.counter)
  {
    if n > 0 {
      LatchesWhenExhausted(s, n - 1);
      WrapOnce(s.counter, 114 * (n - 1));
    }
  }

  lemma {:induction false} StandsWhileDisabled(s: State, n: nat)
    requires !s.counterEnabled
    ensures s.Scanlines(n) == s
  {
    if n > 0 {
      StandsWhileDisabled(s, n - 1);
    }
  }

  /** Both counter bytes and the control value, each selected by its command. */
  function Programmed(s: State, low: Byte, high: Byte, control: Byte): State {
    var counted := s.Written(0x8000, 0xE).Written(0xA000, low).Written(0x8000, 0xF).Written(0xA000, high);
    counted.Written(0x8000, 0xD).Written(0xA000, control)
  }

  lemma ProgrammedState(s: State, low: Byte, high: Byte, control: Byte)
    ensures Programmed(s, low, high, control) == State(0xD, control >= 128, control % 2 == 1, low + 256 * high, false)
  {
    var first := s.Written(0x8000, 0xE).Written(0xA000, low);
    assert first.counter % 256 == low;
    assert first.Written(0x8000, 0xF).Written(0xA000, high).counter == low + 256 * high;
  }

  /**
   From any state: with the counter written and the control byte C.......T, the line is up after
   n scanlines iff both C and T are set and 114 n exceeds the written counter.
   */
  lemma ProgrammedThenScanlines(s: State, low: Byte, high: Byte, control: Byte, n: nat)
    ensures Programmed(s, low, high, control).Scanlines(n).Asserted()
            <==> control >= 128 && control % 2 == 1 && 114 * n > low + 256 * high
  {
    ProgrammedState(s, low, high, control);
    var start := Programmed(s, low, high, control);
    if control >= 128 {
      LatchesWhenExhausted(start, n);
    } else {
      StandsWhileDisabled(start, n);
    }
  }

  lemma WrapOnce(c: Address, used: nat)
    ensures var before := WrapAddress(c - used);
            && WrapAddress(before - 114) == WrapAddress(c - used - 114)
            && (used <= c ==> (WrapAddress(before - 114) > before <==> used + 114 > c))
  {
  }
}

/** The MMC5 interrupt: a scanline number compared, as a byte, with a register. */
module Mmc5Irq {
  import opened Bytes
  import opened ByteBits

  datatype State = State(compare: Byte, enabled: bool, pending: bool, scanline: nat)
  {
    function Next(): nat {
      if scanline + 1 >= 262 then 0 else scanline + 1
    }

    /** Does the next call match? */
    predicate Hits() {
      Next() % 256 == compare && compare != 0
    }

    /** One call: the number advances, and a match raises the flag. */
    function Scanline(): State {
      this.(scanline := Next(), pending := pending || Hits())
    }

    /** What a status read reports: the flag in bit 7. */
    function Status(): Byte {
      if pending then 0x80 else 0x00
    }

    function Scanlines(n: nat): State {
      if n == 0 then this else Scanlines(n - 1).Scanline()
    }
  }

  datatype Event = Scanline | ReadStatus | WriteCompare(value: Byte) | WriteControl(value: Byte)

  function Apply(s: State, e: Event): State {
    match e
    case Scanline => s.Scanline()
    case ReadStatus => s.(pending := false)
    case WriteCompare(value) => s.(compare := value)
    case WriteControl(value) => s.(enabled := value >= 128)
  }

  function Run(s: State, events: seq<Event>): State {
    if events == [] then s else Apply(Run(s, events[..|events| - 1]), events[|events| - 1])
  }

  class Mmc5 {
    var irqScanlineCmp: Byte
    var irqEnabled: bool
    var irqPending: bool
    var scanline: Address

    function Irq(): State
      reads this
    {
      State(irqScanlineCmp, irqEnabled, irqPending, scanline)
    }

    method IrqScanline() returns (asserted: bool)
      requires scanline < 262
      modifies this`scanline, this`irqPending
      ensures scanline < 262 && Irq() == Apply(old(Irq()), Scanline)
      ensures asserted <==> Irq().enabled && Irq().pending
    {
      scanline := WrapAddress(scanline + 1);
      if scanline >= 262 {
        scanline := 0;
      }
      if scanline % 256 == irqScanlineCmp && irqScanlineCmp != 0 {
        irqPending := true;
      }
      asserted := irqEnabled && irqPending;
    }

    /** The interrupt registers' part of `write_register`. */
    method WriteRegister(addr: Address, value: Byte)
      modifies this`irqScanlineCmp, this`irqEnabled
      ensures Irq() == if addr == 0x5203 then Apply(old(Irq()), WriteCompare(value))
                       else if addr == 0x5204 then Apply(old(Irq()), WriteControl(value)) else old(Irq())
    {
      if addr == 0x5203 {
        irqScanlineCmp := value;
      } else if addr == 0x5204 {
        irqEnabled := value >= 128;
      }
    }

    /** Reading $5204 reports the flag and clears it. */
    method ReadStatus(addr: Address) returns (r: Option<Byte>)
      modifies this`irqPending
      ensures r == if addr == 0x5204 then Some(old(Irq()).Status()) else None
      ensures Irq() == if addr == 0x5204 then Apply(old(Irq()), Event.ReadStatus) else old(Irq())
    {
      if addr != 0x5204 {
        return None;
      }
      r := Some(if irqPending then 0x80 else 0x00);
      irqPending := false;
    }
  }

  /** Event `i` is a call that matches, with no status read from then on. */
  predicate MatchesUnread(s: State, events: seq<Event>, i: nat)
    requires i < |events|
  {
    events[i] == Scanline && Run(s, events[..i]).Hits() && Event.ReadStatus !in events[i..]
  }

  /** Over any calls, status reads and register writes the flag is up exactly when a call since the last read matched. */
  lemma {:induction false} StatusIsHistory(s: State, events: seq<Event>)
    requires !s.pending
    ensures Run(s, events).Status() == 0x80 <==> exists i :: 0 <= i < |events| && MatchesUnread(s, events, i)
  {
    if events != [] {
      var n := |events| - 1;
      StatusIsHistory(s, events[..n]);
      MatchesMore(s, events);
    }
  }

  /** A match stays unread until a read, and only a matching call adds one. */
  lemma MatchesMore(s: State, events: seq<Event>)
    requires events != []
    ensures var n := |events| - 1;
            var before := events[..n];
            (exists i :: 0 <= i < |events| && MatchesUnread(s, events, i))
            <==> (events[n] == Scanline && Run(s, before).Hits())
                 || (events[n] != Event.ReadStatus && exists i :: 0 <= i < n && MatchesUnread(s, before, i))
  {
    var n := |events| - 1;
    var before := events[..n];
    forall i | 0 <= i < n
      ensures MatchesUnread(s, events, i) <==> events[n] != Event.ReadStatus && MatchesUnread(s, before, i)
    {
      assert before[..i] == events[..i];
      assert events[i..] == before[i..] + [events[n]];
    }
    assert events[n..] == [events[n]];
    assert MatchesUnread(s, events, n) <==> events[n] == Scanline && Run(s, before).Hits();
  }

  /** The last value written to the control register, if any. */
  function LastControl(events: seq<Event>): Option<Byte> {
    if events == [] then None
    else if events[|events| - 1].WriteControl? then Some(events[|events| - 1].value)
    else LastControl(events[..|events| - 1])
  }

  /** And to the compare register. */
  function LastCompare(events: seq<Event>): Option<Byte> {
    if events == [] then None
    else if events[|events| - 1].WriteCompare? then Some(events[|events| - 1].value)
    else LastCompare(events[..|events| - 1])
  }

  /** Over any history the interrupt is enabled exactly by the top bit of the last control value, and compares with the last compare value. */
  lemma {:induction false} SettingsAreHistory(s: State, events: seq<Event>)
    ensures Run(s, events).enabled == (match LastControl(events) case Some(v) => BitAt(v, 7) case None => s.enabled)
    ensures Run(s, events).compare == (match LastCompare(events) case Some(v) => v case None => s.compare)
  {
    if events != [] {
      SettingsAreHistory(s, events[..|events| - 1]);
      if events[|events| - 1].WriteControl? {
        SignPlace(events[|events| - 1].value);
      }
    }
  }

  /** How many of the `n` calls after `s` match the compare value. */
  function Matches(s: State, n: nat): nat {
    if n == 0 then 0 else Matches(s, n - 1) + One(s.Scanlines(n - 1).Hits())
  }

  /** Between reads the flag is up exactly when some call has matched. */
  lemma {:induction false} PendingIsMatched(s: State, n: nat)
    requires !s.pending
    ensures s.Scanlines(n).pending <==> Matches(s, n) > 0
    ensures s.Scanlines(n).compare == s.compare
  {
    if n > 0 {
      PendingIsMatched(s, n - 1);
    }
  }

  lemma {:induction false} ScanlineNumber(s: State, n: nat)
    requires s.scanline < 262 && n <= 262
    ensures s.Scanlines(n).compare == s.compare
    ensures s.Scanlines(n).scanline == if s.scanline + n >= 262 then s.scanline + n - 262 else s.scanline + n
  {
    if n > 0 {
      ScanlineNumber(s, n - 1);
    }
  }

  function One(b: bool): nat {
    if b then 1 else 0
  }

  /** Has scanline number `x` come up among `n` calls? Each does exactly once in 262. */
  predicate Passed(s: State, n: nat, x: nat) {
    if x > s.scanline then s.scanline + n >= x else s.scanline + n >= x + 262
  }

  /** The number that call `n` brings up. */
  function NumberOf(s: State, n: nat): nat
    requires s.scanline < 262 && 0 < n <= 262
  {
    if s.scanline + n >= 262 then s.scanline + n - 262 else s.scanline + n
  }

  /** Number `x` comes up on the call that reaches it. */
  lemma NextNumberPasses(s: State, n: nat, x: nat)
    requires s.scanline < 262 && 0 < n <= 262 && 0 < x < 262
    ensures One(Passed(s, n, x)) == One(Passed(s, n - 1, x)) + One(NumberOf(s, n) == x)
  {
  }

  /** A number below 262 has the compare value as its low byte in at most two ways. */
  lemma ByteMatches(x: nat, compare: Byte)
    requires x < 262
    ensures One(x % 256 == compare && compare != 0)
            == if compare == 0 then 0 else One(x == compare) + One(compare < 6 && x == compare + 256)
  {
  }

  lemma CallMatches(s: State, n: nat)
    requires s.scanline < 262 && 0 < n <= 262
    ensures One(s.Scanlines(n - 1).Hits())
            == if s.compare == 0 then 0
               else One(NumberOf(s, n) == s.compare) + One(s.compare < 6 && NumberOf(s, n) == s.compare + 256)
  {
    ScanlineNumber(s, n - 1);
    ByteMatches(NumberOf(s, n), s.compare);
  }

  lemma {:induction false} MatchesCount(s: State, n: nat)
    requires s.scanline < 262 && n <= 262
    ensures Matches(s, n) == if s.compare == 0 then 0
                             else One(Passed(s, n, s.compare)) + One(s.compare < 6 && Passed(s, n, s.compare + 256))
  {
    if n > 0 {
      MatchesCount(s, n - 1);
      CallMatches(s, n);
      if s.compare > 0 { NextNumberPasses(s, n, s.compare); }
      if 0 < s.compare < 6 { NextNumberPasses(s, n, s.compare + 256); }
    }
  }

  /** In any 262 consecutive calls a compare value of 6 or more matches once, 1 to 5 twice, and 0 never. */
  lemma MatchesPerFrame(s: State)
    requires s.scanline < 262
    ensures Matches(s, 262) == if s.compare == 0 then 0 else if s.compare < 6 then 2 else 1
  {
    MatchesCount(s, 262);
  }

  /** So after a status read and 262 calls the next read reports a match exactly for nonzero compare values. */
  lemma StatusPerFrame(s: State)
    requires s.scanline < 262
    ensures Apply(s, Event.ReadStatus).Scanlines(262).Status() == if s.compare == 0 then 0x00 else 0x80
  {
    var clear := Apply(s, Event.ReadStatus);
    MatchesPerFrame(clear);
    PendingIsMatched(clear, 262);
  }
}
