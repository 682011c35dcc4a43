/**
 Validation of profiled stack-escape sites while lifting a range, and what an
 accepted site guarantees about the interpreter.
 */
module ReturnSites {
  import opened Bytes
  import opened Cpu6502
  import opened Isa
  import opened Lifter
  import opened LiftRange

  datatype Verdict = Accept | Reject(error: LiftError)

  /** A materialized call must be a complete JSR to the profiled target. */
  function CheckMaterialized(image: Image, opts: LiftOptions, site: MaterializedCallSite): Verdict {
    if !InRange(opts, site.caller) then Accept else
    match InsnAt(image, site.caller)
    case Err(e) => Reject(e)
    case Ok(insn) =>
      if !insn.mnemonic.JSR? || insn.operand != Addr(site.target) || site.caller + 3 > opts.end
      then Reject(Rejected(site.caller)) else Accept
  }

  /** Where the scan goes on: behind the instruction, or behind the table of a dispatch call; `None` when that wraps. */
  function ScanOn(opts: LiftOptions, scan: Address, size: nat): (r: Option<Address>)
    requires 1 <= size
    ensures r.Some? ==> scan < r.value
  {
    var next := match FindEngine(opts.engines, scan) case Some(site) => site.TableEnd() case None => scan + size;
    if next > 0xFFFF then None else Some(next)
  }

  /** Scans the whole range for a call into `(after, last]`. */
  function CheckCalls(image: Image, opts: LiftOptions, after: Address, last: Address, scan: Address): Verdict
    decreases opts.end - scan
  {
    if scan >= opts.end then Accept else
    match FindRegion(opts.dataRegions, scan)
    case Some(region) => CheckCalls(image, opts, after, last, AfterRegion(region))
    case None =>
      match InsnAt(image, scan)
      case Err(e) => Reject(e)
      case Ok(insn) =>
        if insn.mnemonic.JSR? && insn.operand.Addr? && after < insn.operand.addr <= last then Reject(Rejected(after))
        else
          match ScanOn(opts, scan, insn.size)
          case None => Reject(Rejected(after))
          case Some(next) => CheckCalls(image, opts, after, last, next)
  }

  predicate EntersInside(labelled: set<Address>, after: Address, last: Address) {
    exists pc :: pc in labelled && after < pc <= last
  }

  /** Some dispatch call names a label inside `(after, last]`. */
  predicate DispatchEnters(opts: LiftOptions, after: Address, last: Address) {
    exists site, pc: Address :: site in opts.engines && after < pc <= last && site.Names(LabelFor(pc, opts))
  }

  function CheckPla(image: Image, pc: Address, site: Address): Verdict {
    match InsnAt(image, pc)
    case Err(e) => Reject(e)
    case Ok(insn) => if insn.mnemonic.PLA? && insn.size == 1 then Accept else Reject(Rejected(site))
  }

  /** Between the two pulls only zero-page stores and NOPs may run. */
  function CheckGap(image: Image, site: Address, gap: Address, last: Address): Verdict
    decreases last - gap
  {
    if gap >= last then Accept else
    match InsnAt(image, gap)
    case Err(e) => Reject(e)
    case Ok(insn) =>
      if !(insn.mnemonic.STA? || insn.mnemonic.STX? || insn.mnemonic.STY? || insn.mnemonic.NOP?)
         || gap + insn.size > last
         || (!insn.mnemonic.NOP? && !insn.mode.ZeroPage?)
      then Reject(Rejected(site))
      else CheckGap(image, site, gap + insn.size, last)
  }

  /** The address of the second pull; `None` when it would wrap. */
  function SecondPull(site: ReturnConsumeSite): Option<Address> {
    if site.secondPla.Some? then site.secondPla
    else if site.at < 0xFFFF then Some(site.at + 1) else None
  }

  /** Whether an in-range pair lies wholly inside the range, in order, with no way in between the pulls. */
  predicate PairInPlace(opts: LiftOptions, labelled: set<Address>, site: ReturnConsumeSite, last: Address) {
    && opts.start <= site.at && last < opts.end && site.returnAddrs != [] && site.at < last
    && !EntersInside(labelled, site.at, last)
  }

  function Then(v: Verdict, next: Verdict): Verdict {
    if v.Accept? then next else v
  }

  function CheckConsume(image: Image, opts: LiftOptions, labelled: set<Address>, site: ReturnConsumeSite): Verdict {
    match SecondPull(site)
    case None => Reject(Rejected(site.at))
    case Some(last) =>
      if site.at >= opts.end || last < opts.start then Accept
      else if !PairInPlace(opts, labelled, site, last) then Reject(Rejected(site.at))
      else
        Then(CheckPla(image, site.at, site.at),
        Then(CheckPla(image, last, site.at),
        Then(CheckGap(image, site.at, site.at + 1, last),
        Then(if DispatchEnters(opts, site.at, last) then Reject(Rejected(site.at)) else Accept,
             CheckCalls(image, opts, site.at, last, opts.start)))))
  }

  /** After the two pulls only loads and NOPs may run, up to the JMP at `caller`. */
  function CheckSuffix(image: Image, site: ReturnEscapeSite, pc: Address): Verdict
    requires pc <= site.caller
    decreases site.caller - pc
  {
    match InsnAt(image, pc)
    case Err(e) => Reject(e)
    case Ok(insn) =>
      if pc == site.caller then
        if insn.mnemonic.JMP? && insn.mode.Absolute? && insn.operand == Addr(site.target) then Accept
        else Reject(Rejected(site.caller))
      else if !(insn.mnemonic.LDA? || insn.mnemonic.LDX? || insn.mnemonic.LDY? || insn.mnemonic.NOP?) then
        Reject(Rejected(site.caller))
      else if pc + insn.size > site.caller then Reject(Rejected(site.caller))
      else CheckSuffix(image, site, pc + insn.size)
  }

  predicate BlockInPlace(opts: LiftOptions, labelled: set<Address>, site: ReturnEscapeSite, first: Address) {
    && opts.start <= first && site.caller < opts.end && first + 2 <= site.caller
    && !EntersInside(labelled, first, site.caller) && !DispatchEnters(opts, first, site.caller)
  }

  function CheckEscape(image: Image, opts: LiftOptions, labelled: set<Address>, site: ReturnEscapeSite): Verdict {
    if !site.alreadyConsumed then Accept
    else if site.consumeAt.None? then Reject(Rejected(site.caller))
    else
      var first := site.consumeAt.value;
      if first >= opts.end || site.caller < opts.start then Accept
      else if !BlockInPlace(opts, labelled, site, first) then Reject(Rejected(first))
      else
        Then(CheckCalls(image, opts, first, site.caller, opts.start),
        Then(CheckPla(image, first, first),
        Then(CheckPla(image, first + 1, first),
             CheckSuffix(image, site, first + 2))))
  }

  // ----- soundness -----

  /** The interpreter executes one instruction from `s` to `t`. */
  ghost predicate StepTo(table: Table, s: Cpu, t: Cpu) {
    Current(table, s).Valid() && Step(table, s) == Stepped(t)
  }

  ghost predicate StepsAt(table: Table, trace: seq<Cpu>, j: nat)
    requires j + 1 < |trace|
  {
    StepTo(table, trace[j], trace[j + 1])
  }

  ghost predicate OracleRun(table: Table, trace: seq<Cpu>) {
    trace != [] && forall j :: 0 <= j < |trace| - 1 ==> StepsAt(table, trace, j)
  }

  lemma PrependRun(table: Table, s: Cpu, trace: seq<Cpu>)
    requires OracleRun(table, trace) && StepTo(table, s, trace[0])
    ensures OracleRun(table, [s] + trace)
  {
    var longer := [s] + trace;
    forall j | 0 <= j < |longer| - 1
      ensures StepsAt(table, longer, j)
    {
      if j > 0 {
        assert StepsAt(table, trace, j - 1);
        assert longer[j] == trace[j - 1] && longer[j + 1] == trace[j];
      }
    }
  }

  /** Stepping at an address the image decodes executes the decoded instruction. */
  lemma StepDecoded(image: Image, s: Cpu)
    requires image.Valid() && CodeLoaded(image, s.m.bus) && InsnAt(image, s.pc).Ok?
    ensures Current(image.table, s) == InsnAt(image, s.pc).value
    ensures Step(image.table, s) == Execute(InsnAt(image, s.pc).value, s.m)
  {
    DecodedInsn(image, s.pc);
    SameInstruction(image, s.m, s.pc);
  }

  lemma LoadMeaning(insn: Instruction, m: Machine)
    requires insn.Valid() && insn.pc + insn.size <= 0xFFFF
    requires insn.mnemonic.LDA? || insn.mnemonic.LDX? || insn.mnemonic.LDY? || insn.mnemonic.NOP?
    ensures var r := Execute(insn, m);
            r.Stepped? && r.cpu.pc == insn.pc + insn.size && r.cpu.m.bus == m.bus && r.cpu.m.sp == m.sp
  {
  }

  lemma PullMeaning(insn: Instruction, m: Machine)
    requires insn.Valid() && insn.mnemonic.PLA? && insn.size == 1 && insn.pc < 0xFFFF
    ensures var r := Execute(insn, m);
            r.Stepped? && r.cpu.pc == insn.pc + 1 && r.cpu.m.bus == m.bus && r.cpu.m.sp == WrapByte(m.sp + 1)
  {
  }

  lemma JumpMeaning(insn: Instruction, m: Machine)
    requires insn.Valid() && insn.mnemonic.JMP? && insn.mode.Absolute?
    ensures Execute(insn, m) == Stepped(Cpu(insn.operand.addr, m))
  {
  }

  /** Nothing outside zero page differs. */
  ghost predicate OnlyZeroPage(before: Bus, after: Bus) {
    before.romStart == after.romStart && forall a :: 256 <= a < 0x1_0000 ==> after.mem[a] == before.mem[a]
  }

  lemma ZeroPageStoreMeaning(insn: Instruction, m: Machine)
    requires insn.Valid() && insn.pc + insn.size <= 0xFFFF && insn.mode.ZeroPage?
    requires insn.mnemonic.STA? || insn.mnemonic.STX? || insn.mnemonic.STY?
    ensures var r := Execute(insn, m);
            r.Stepped? && r.cpu.pc == insn.pc + insn.size && OnlyZeroPage(m.bus, r.cpu.m.bus) && r.cpu.m.sp == m.sp
  {
  }

  /** One pull at an accepted address. */
  lemma PullAt(image: Image, pc: Address, site: Address, m: Machine) returns (t: Cpu)
    requires image.Valid() && CodeLoaded(image, m.bus) && pc < 0xFFFF && CheckPla(image, pc, site).Accept?
    ensures StepTo(image.table, Cpu(pc, m), t)
    ensures t.pc == pc + 1 && t.m.bus == m.bus && t.m.sp == WrapByte(m.sp + 1)
  {
    DecodedInsn(image, pc);
    StepDecoded(image, Cpu(pc, m));
    PullMeaning(InsnAt(image, pc).value, m);
    t := Step(image.table, Cpu(pc, m)).cpu;
  }

  /** One instruction of an accepted suffix. */
  lemma SuffixStep(image: Image, site: ReturnEscapeSite, pc: Address, m: Machine) returns (t: Cpu)
    requires image.Valid() && CodeLoaded(image, m.bus) && pc < site.caller && CheckSuffix(image, site, pc).Accept?
    ensures StepTo(image.table, Cpu(pc, m), t) && pc < t.pc <= site.caller && CheckSuffix(image, site, t.pc).Accept?
    ensures t.m.bus == m.bus && t.m.sp == m.sp
  {
    DecodedInsn(image, pc);
    StepDecoded(image, Cpu(pc, m));
    LoadMeaning(InsnAt(image, pc).value, m);
    t := Step(image.table, Cpu(pc, m)).cpu;
  }

  lemma SuffixJump(image: Image, site: ReturnEscapeSite, m: Machine)
    requires image.Valid() && CodeLoaded(image, m.bus) && CheckSuffix(image, site, site.caller).Accept?
    ensures StepTo(image.table, Cpu(site.caller, m), Cpu(site.target, m))
  {
    DecodedInsn(image, site.caller);
    StepDecoded(image, Cpu(site.caller, m));
    JumpMeaning(InsnAt(image, site.caller).value, m);
  }

  /** An accepted suffix runs to the target without touching memory or the stack pointer. */
  lemma {:induction false} SuffixRun(image: Image, site: ReturnEscapeSite, pc: Address, m: Machine) returns (trace: seq<Cpu>)
    requires image.Valid() && CodeLoaded(image, m.bus)
    requires pc <= site.caller && CheckSuffix(image, site, pc).Accept?
    ensures OracleRun(image.table, trace) && trace[0] == Cpu(pc, m)
    ensures var last := trace[|trace| - 1];
            last.pc == site.target && last.m.bus == m.bus && last.m.sp == m.sp
    decreases site.caller - pc
  {
    hide StepTo, CheckSuffix;
    var s := Cpu(pc, m);
    var rest: seq<Cpu>;
    if pc == site.caller {
      SuffixJump(image, site, m);
      rest := [Cpu(site.target, m)];
    } else {
      var t := SuffixStep(image, site, pc, m);
      rest := SuffixRun(image, site, t.pc, t.m);
    }
    PrependRun(image.table, s, rest);
    trace := [s] + rest;
  }

  lemma WrapTwice(sp: Byte)
    ensures WrapByte(WrapByte(sp + 1) + 1) == WrapByte(sp + 2)
  {
  }

  /**
   An accepted consumed return_escape: from the first pull the interpreter reaches
   the profiled target with SP raised by exactly two and no memory written, however
   long the suffix is.
   */
  lemma EscapeIsSound(image: Image, opts: LiftOptions, labelled: set<Address>, site: ReturnEscapeSite, m: Machine)
    returns (trace: seq<Cpu>)
    requires image.Valid() && CodeLoaded(image, m.bus)
    requires site.alreadyConsumed && CheckEscape(image, opts, labelled, site).Accept?
    requires site.consumeAt.Some? && site.consumeAt.value < opts.end && opts.start <= site.caller
    ensures OracleRun(image.table, trace) && trace[0] == Cpu(site.consumeAt.value, m)
    ensures var last := trace[|trace| - 1];
            last.pc == site.target && last.m.bus == m.bus && last.m.sp == WrapByte(m.sp + 2)
  {
    hide CheckCalls, CheckSuffix, CheckPla, WrapByte, StepTo, DispatchEnters;
    var first := site.consumeAt.value;
    var s := Cpu(first, m);
    var t1 := PullAt(image, first, first, m);
    var t2 := PullAt(image, first + 1, first, t1.m);
    var rest := SuffixRun(image, site, t2.pc, t2.m);
    WrapTwice(m.sp);
    PrependRun(image.table, t1, rest);
    PrependRun(image.table, s, [t1] + rest);
    trace := [s] + ([t1] + rest);
  }

  lemma OnlyZeroPageKeepsCode(image: Image, before: Bus, after: Bus)
    requires CodeLoaded(image, before) && OnlyZeroPage(before, after)
    ensures CodeLoaded(image, after)
  {
  }

  /** One instruction of an accepted gap. */
  lemma GapStep(image: Image, site: Address, gap: Address, last: Address, m: Machine) returns (t: Cpu)
    requires image.Valid() && CodeLoaded(image, m.bus) && gap < last < 0xFFFF
    requires CheckGap(image, site, gap, last).Accept?
    ensures StepTo(image.table, Cpu(gap, m), t) && gap < t.pc <= last && CheckGap(image, site, t.pc, last).Accept?
    ensures OnlyZeroPage(m.bus, t.m.bus) && t.m.sp == m.sp && CodeLoaded(image, t.m.bus)
  {
    DecodedInsn(image, gap);
    StepDecoded(image, Cpu(gap, m));
    var insn := InsnAt(image, gap).value;
    if insn.mnemonic.NOP? {
      LoadMeaning(insn, m);
    } else {
      ZeroPageStoreMeaning(insn, m);
    }
    t := Execute(insn, m).cpu;
    OnlyZeroPageKeepsCode(image, m.bus, t.m.bus);
  }

  /** An accepted gap runs up to the second pull and through it. */
  lemma {:induction false} GapRun(image: Image, site: Address, gap: Address, last: Address, m: Machine) returns (trace: seq<Cpu>)
    requires image.Valid() && CodeLoaded(image, m.bus) && gap <= last < 0xFFFF
    requires CheckGap(image, site, gap, last).Accept? && CheckPla(image, last, site).Accept?
    ensures OracleRun(image.table, trace) && trace[0] == Cpu(gap, m)
    ensures var end := trace[|trace| - 1];
            end.pc == last + 1 && OnlyZeroPage(m.bus, end.m.bus) && end.m.sp == WrapByte(m.sp + 1)
    decreases last - gap
  {
    hide CheckPla, StepTo, WrapByte;
    var s := Cpu(gap, m);
    var rest: seq<Cpu>;
    if gap == last {
      var t := PullAt(image, last, site, m);
      rest := [t];
    } else {
      var t := GapStep(image, site, gap, last, m);
      rest := GapRun(image, site, t.pc, last, t.m);
    }
    PrependRun(image.table, s, rest);
    trace := [s] + rest;
  }

  /**
   An accepted return_consume pair: from the first pull through the second one SP
   rises by exactly two and only zero page changes.
   */
  lemma ConsumeIsSound(image: Image, opts: LiftOptions, labelled: set<Address>, site: ReturnConsumeSite, m: Machine)
    returns (trace: seq<Cpu>)
    requires image.Valid() && CodeLoaded(image, m.bus)
    requires CheckConsume(image, opts, labelled, site).Accept?
    requires SecondPull(site).Some? && site.at < opts.end && opts.start <= SecondPull(site).value
    ensures OracleRun(image.table, trace) && trace[0] == Cpu(site.at, m)
    ensures var end := trace[|trace| - 1];
            end.pc == SecondPull(site).value + 1 && OnlyZeroPage(m.bus, end.m.bus) && end.m.sp == WrapByte(m.sp + 2)
  {
    hide CheckCalls, CheckGap, CheckPla, WrapByte, StepTo, DispatchEnters;
    var last := SecondPull(site).value;
    var s := Cpu(site.at, m);
    var t := PullAt(image, site.at, site.at, m);
    var rest := GapRun(image, site.at, site.at + 1, last, t.m);
    WrapTwice(m.sp);
    PrependRun(image.table, s, rest);
    trace := [s] + rest;
  }

  /** In an accepted block no labelled address lets control in after the first pull. */
  lemma NoEntryInsideEscape(image: Image, opts: LiftOptions, labelled: set<Address>, site: ReturnEscapeSite, pc: Address)
    requires site.alreadyConsumed && CheckEscape(image, opts, labelled, site).Accept?
    requires site.consumeAt.Some? && site.consumeAt.value < opts.end && opts.start <= site.caller
    requires site.consumeAt.value < pc <= site.caller
    ensures pc !in labelled && LabelOps(opts, labelled, pc) == []
    ensures forall engine :: engine in opts.engines ==> !engine.Names(LabelFor(pc, opts))
  {
  }

  /** Addresses the scan for calls decodes. */
  predicate Scanned(image: Image, opts: LiftOptions, scan: Address, pc: Address)
    decreases opts.end - scan
  {
    if scan >= opts.end then false else
    match FindRegion(opts.dataRegions, scan)
    case Some(region) => Scanned(image, opts, AfterRegion(region), pc)
    case None =>
      || scan == pc
      || (InsnAt(image, scan).Ok? && ScanOn(opts, scan, InsnAt(image, scan).value.size).Some?
          && Scanned(image, opts, ScanOn(opts, scan, InsnAt(image, scan).value.size).value, pc))
  }

  /** A passed scan leaves no call, at any scanned address, into the guarded block. */
  lemma {:induction false} NoCallInside(image: Image, opts: LiftOptions, after: Address, last: Address, scan: Address, pc: Address)
    requires CheckCalls(image, opts, after, last, scan).Accept? && Scanned(image, opts, scan, pc)
    ensures InsnAt(image, pc).Ok?
    ensures var insn := InsnAt(image, pc).value;
            insn.mnemonic.JSR? && insn.operand.Addr? ==> !(after < insn.operand.addr <= last)
    decreases opts.end - scan
  {
    match FindRegion(opts.dataRegions, scan)
    case Some(region) => NoCallInside(image, opts, after, last, AfterRegion(region), pc);
    case None =>
      if scan != pc {
        NoCallInside(image, opts, after, last, ScanOn(opts, scan, InsnAt(image, scan).value.size).value, pc);
      }
  }
}
