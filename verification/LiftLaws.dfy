/**
 What the lifter writes down beside the effect of an instruction: the names of labels, the
 region of an operand, and the operations of profiled sites.
 */
module LiftLaws {
  import opened Bytes
  import opened Cpu6502
  import opened Isa
  import opened Ir
  import opened Lifter
  import opened LiftRange
  import ReturnDispatch
  import RemapSafety

  // ----- labels -----

  /** The value of a hexadecimal digit. */
  function DigitValue(c: char): int {
    if '0' <= c <= '9' then c as int - '0' as int else c as int - 'A' as int + 10
  }

  function HexValue(s: string): int {
    if s == [] then 0 else 16 * HexValue(s[..|s| - 1]) + DigitValue(s[|s| - 1])
  }

  lemma DigitReads(d: int)
    requires 0 <= d < 16
    ensures DigitValue(HexDigit(d)) == d
    ensures '0' <= HexDigit(d) <= '9' || 'A' <= HexDigit(d) <= 'F'
  {
  }

  lemma HexReads(a: Address)
    ensures |Hex4(a)| == 4 && HexValue(Hex4(a)) == a
  {
    var h := Hex4(a);
    DigitReads(a / 4096);
    DigitReads(a / 256 % 16);
    DigitReads(a / 16 % 16);
    DigitReads(a % 16);
    assert h[..3] == [h[0], h[1], h[2]] && h[..3][..2] == [h[0], h[1]] && h[..3][..2][..1] == [h[0]];
    assert HexValue(h[..3][..2][..1]) == DigitValue(h[0]);
    assert HexValue(h[..3][..2]) == 16 * DigitValue(h[0]) + DigitValue(h[1]);
    assert HexValue(h[..3]) == 16 * (16 * DigitValue(h[0]) + DigitValue(h[1])) + DigitValue(h[2]);
    Nibbles(a);
  }

  /** A label spells its address: `L_`, the window's prefix inside the window, and four hexadecimal digits. */
  lemma LabelSpellsAddress(a: Address, opts: LiftOptions)
    ensures var name, prefix := LabelFor(a, opts), if opts.labelPrefix.Some? then opts.labelPrefix.value else [];
            var inWindow := opts.windowStart <= a < opts.windowEnd;
            && |name| >= 6 && name[..|name| - 4] == (if inWindow then "L_" + prefix else "L_")
            && HexValue(name[|name| - 4..]) == a
  {
    var name := LabelFor(a, opts);
    var head := if opts.labelPrefix.Some? && opts.windowStart <= a < opts.windowEnd then "L_" + opts.labelPrefix.value else "L_";
    assert name == head + Hex4(a);
    HexReads(a);
    assert name[..|name| - 4] == head && name[|name| - 4..] == Hex4(a);
  }

  // ----- profiled transfers -----

  /**
   An absolute jump at a profiled escape becomes the escape exactly when the interpreter goes to
   the profiled target; otherwise it is refused.
   */
  lemma EscapeGoesWhereTheJumpGoes(insn: Instruction, opts: LiftOptions, site: ReturnEscapeSite, m: Machine)
    requires insn.Valid() && insn.mnemonic.JMP? && insn.mode.Absolute? && FindEscape(opts.returnEscapes, insn.pc) == Some(site)
    ensures LiftInsn(insn, opts) == if Execute(insn, m) == Stepped(Cpu(site.target, m))
                                    then [ReturnEscape(LabelFor(site.target, opts), site.returnAddr, site.alreadyConsumed)]
                                    else [Unsupported(insn.pc, insn.opcode)]
  {
  }

  /** Any other instruction at a profiled escape is refused, and so is an unstable opcode. */
  lemma OthersAreRefused(insn: Instruction, opts: LiftOptions)
    requires insn.Valid()
    requires (FindEscape(opts.returnEscapes, insn.pc).Some? && !(insn.mnemonic.JMP? && insn.mode.Absolute?)) || Unstable(insn.mnemonic)
    ensures LiftInsn(insn, opts) == [Unsupported(insn.pc, insn.opcode)]
  {
  }

  /** A call that is no dispatch call is materialized exactly when the profile lists its address. */
  lemma CallIsMaterializedIff(insn: Instruction, opts: LiftOptions, m: Machine)
    requires insn.Valid() && insn.mnemonic.JSR?
    requires FindEscape(opts.returnEscapes, insn.pc).None? && FindEngine(opts.engines, insn.pc).None?
    ensures Execute(insn, m).Stepped?
    ensures var name := LabelFor(Execute(insn, m).cpu.pc, opts);
            LiftInsn(insn, opts) == if exists i :: 0 <= i < |opts.materializedCalls| && opts.materializedCalls[i].caller == insn.pc
                                    then [MaterializedJsr(name, WrapAddress(insn.pc + 2))]
                                    else [Jsr(name)]
  {
    hide LabelFor;
    if exists site :: site in opts.materializedCalls && site.caller == insn.pc {
      var site :| site in opts.materializedCalls && site.caller == insn.pc;
      var i :| 0 <= i < |opts.materializedCalls| && opts.materializedCalls[i] == site;
    }
  }

  // ----- operations that name labels -----

  /** The operation refers to some label. */
  ghost predicate NamesSome(op: Op) {
    exists name :: Mentions(op, name)
  }

  lemma NamesSomeIff(op: Op)
    ensures NamesSome(op) <==>
              || op.BranchIf? || op.Jmp? || op.ReturnEscape? || op.Jsr? || op.MaterializedJsr?
              || (op.JumpEngineCall? && (op.targets != [] || op.returnTarget.Some?))
  {
    if op.BranchIf? || op.Jmp? || op.ReturnEscape? || op.Jsr? || op.MaterializedJsr? {
      assert Mentions(op, op.target);
    }
    if op.JumpEngineCall? && op.targets != [] {
      assert Mentions(op, op.targets[0]);
    }
    if op.JumpEngineCall? && op.returnTarget.Some? {
      assert Mentions(op, op.returnTarget.value);
    }
  }

  /** The balance of pushes starts over exactly at labels, at returns, and at operations that refer to labels other than dispatch calls. */
  lemma BoundariesAre(op: Op)
    ensures ReturnDispatch.IsBoundary(op) <==> op.Label? || op.Rts? || (NamesSome(op) && !op.JumpEngineCall?)
  {
    NamesSomeIff(op);
  }

  /**
   Of the operations control can leave through, the check on mapped routines takes for writers
   exactly mapper writes and those that neither refer to a label nor return, trap or pop.
   */
  lemma WritersByExclusion(op: Op)
    requires !Sequential(op) && !(op.JumpEngineCall? && !NamesSome(op))
    ensures RemapSafety.MayRemap(op) <==>
              || op.MapperWrite?
              || !(NamesSome(op) || op.Rts? || op.Rti? || op.Brk? || op.Jam? || op.Unsupported? || op.ReturnConsume? || op.ReturnEscapeConsume?)
  {
    NamesSomeIff(op);
  }

  // ----- regions -----

  /** The operation's region is that of the operand. */
  predicate HasRegionOf(op: Op, insn: Instruction) {
    op.ReadMem? || op.StoreMem? || op.ModifyMem? ==> insn.operand.Addr? && op.region == ClassifyAddr(insn.operand.addr)
  }

  lemma ReadRegion(insn: Instruction, d: nat)
    requires insn.Valid() && ReadsOperand(insn.mnemonic) && d < |LiftRead(insn)|
    ensures HasRegionOf(LiftRead(insn)[d], insn)
  {
    hide ClassifyAddr;
  }

  lemma MemoryRegion(insn: Instruction, d: nat)
    requires insn.Valid() && AlwaysMemory(insn.mnemonic) && d < |LiftMemory(insn)|
    ensures HasRegionOf(LiftMemory(insn)[d], insn)
  {
    hide ClassifyAddr;
  }

  lemma ShiftRegion(insn: Instruction, d: nat)
    requires insn.Valid() && IsShift(insn.mnemonic) && d < |LiftShift(insn)|
    ensures HasRegionOf(LiftShift(insn)[d], insn)
  {
    hide ClassifyAddr;
  }

  /** Every memory operation carries the region of the instruction's operand. */
  lemma RegionIsTheOperands(insn: Instruction, opts: LiftOptions, d: nat)
    requires insn.Valid() && d < |LiftInsn(insn, opts)|
    ensures HasRegionOf(LiftInsn(insn, opts)[d], insn)
  {
    hide ClassifyAddr, LabelFor, LiftRead, LiftMemory, LiftShift;
    if FindEscape(opts.returnEscapes, insn.pc).Some? && !(insn.mnemonic.JMP? && insn.mode.Absolute?) {
    } else if ReadsOperand(insn.mnemonic) {
      ReadRegion(insn, d);
    } else if AlwaysMemory(insn.mnemonic) {
      MemoryRegion(insn, d);
    } else if IsShift(insn.mnemonic) {
      ShiftRegion(insn, d);
    }
  }

  // ----- the markers of profiled pops -----

  /** The address is where listed site `i` first pulls. */
  predicate FirstPullAt(opts: LiftOptions, i: int, pc: Address) {
    0 <= i < |opts.returnEscapes| && opts.returnEscapes[i].consumeAt == Some(pc)
  }

  predicate PairAt(opts: LiftOptions, i: int, pc: Address) {
    0 <= i < |opts.returnConsumes| && opts.returnConsumes[i].at == pc
  }

  lemma {:induction false} FirstEscape(sites: seq<ReturnEscapeSite>, pc: Address, i: nat)
    requires i < |sites| && sites[i].consumeAt == Some(pc) && forall j :: 0 <= j < i ==> sites[j].consumeAt != Some(pc)
    ensures FindConsumeAt(sites, pc) == Some(sites[i])
  {
    if i > 0 {
      FirstEscape(sites[1..], pc, i - 1);
    }
  }

  lemma {:induction false} FirstPair(sites: seq<ReturnConsumeSite>, pc: Address, i: nat)
    requires i < |sites| && sites[i].at == pc && forall j :: 0 <= j < i ==> sites[j].at != pc
    ensures FindReturnConsume(sites, pc) == Some(sites[i])
  {
    if i > 0 {
      FirstPair(sites[1..], pc, i - 1);
    }
  }

  /** The first listed site that pulls at the address, if any. */
  ghost predicate IsFirstPull(opts: LiftOptions, found: Option<nat>, pc: Address) {
    match found
    case Some(i) => FirstPullAt(opts, i, pc) && forall j :: 0 <= j < i ==> !FirstPullAt(opts, j, pc)
    case None => forall j :: !FirstPullAt(opts, j, pc)
  }

  ghost predicate IsFirstPair(opts: LiftOptions, found: Option<nat>, pc: Address) {
    match found
    case Some(i) => PairAt(opts, i, pc) && forall j :: 0 <= j < i ==> !PairAt(opts, j, pc)
    case None => forall j :: !PairAt(opts, j, pc)
  }

  lemma EscapeFound(opts: LiftOptions, found: Option<nat>, pc: Address)
    requires IsFirstPull(opts, found, pc)
    ensures FindConsumeAt(opts.returnEscapes, pc) == if found.Some? then Some(opts.returnEscapes[found.value]) else None
  {
    var sites := opts.returnEscapes;
    if found.Some? {
      assert forall j :: 0 <= j < found.value ==> (FirstPullAt(opts, j, pc) <==> sites[j].consumeAt == Some(pc));
      FirstEscape(sites, pc, found.value);
    } else if FindConsumeAt(sites, pc).Some? {
      var i :| 0 <= i < |sites| && sites[i] == FindConsumeAt(sites, pc).value;
      assert FirstPullAt(opts, i, pc);
    }
  }

  lemma PairFound(opts: LiftOptions, found: Option<nat>, pc: Address)
    requires IsFirstPair(opts, found, pc)
    ensures FindReturnConsume(opts.returnConsumes, pc) == if found.Some? then Some(opts.returnConsumes[found.value]) else None
  {
    var sites := opts.returnConsumes;
    if found.Some? {
      assert forall j :: 0 <= j < found.value ==> (PairAt(opts, j, pc) <==> sites[j].at == pc);
      FirstPair(sites, pc, found.value);
    } else if FindReturnConsume(sites, pc).Some? {
      var i :| 0 <= i < |sites| && sites[i] == FindReturnConsume(sites, pc).value;
      assert PairAt(opts, i, pc);
    }
  }

  /** Behind an instruction's marker stand the pop of the first escape that pulls there, then the pops of the first pair, and nothing else. */
  lemma PopsAreMarked(opts: LiftOptions, pc: Address, escape: Option<nat>, pair: Option<nat>)
    requires IsFirstPull(opts, escape, pc) && IsFirstPair(opts, pair, pc)
    ensures SiteOps(opts, pc)
            == (if escape.Some? then [ReturnEscapeConsume(opts.returnEscapes[escape.value].returnAddr)] else [])
               + (if pair.Some? then [ReturnConsume(opts.returnConsumes[pair.value].returnAddrs)] else [])
  {
    hide FindConsumeAt, FindReturnConsume;
    EscapeFound(opts, escape, pc);
    PairFound(opts, pair, pc);
  }

  // ----- which entry a lookup finds -----

  /** Lookups find the first entry listed. */
  lemma {:induction false} FirstEngine(sites: seq<JumpEngineSite>, pc: Address, i: nat)
    requires i < |sites| && sites[i].caller == pc && forall j :: 0 <= j < i ==> sites[j].caller != pc
    ensures FindEngine(sites, pc) == Some(sites[i])
  {
    if i > 0 {
      FirstEngine(sites[1..], pc, i - 1);
    }
  }

  lemma {:induction false} FirstEscapeSite(sites: seq<ReturnEscapeSite>, caller: Address, i: nat)
    requires i < |sites| && sites[i].caller == caller && forall j :: 0 <= j < i ==> sites[j].caller != caller
    ensures FindEscape(sites, caller) == Some(sites[i])
  {
    if i > 0 {
      FirstEscapeSite(sites[1..], caller, i - 1);
    }
  }

  lemma {:induction false} FirstRegion(regions: seq<DataRegion>, pc: Address, i: nat)
    requires i < |regions| && regions[i].first <= pc <= regions[i].last
    requires forall j :: 0 <= j < i ==> !(regions[j].first <= pc <= regions[j].last)
    ensures FindRegion(regions, pc) == Some(regions[i])
  {
    if i > 0 {
      assert !regions[0].Contains(pc);
      FirstRegion(regions[1..], pc, i - 1);
    }
  }
}
