/**
 Lifting a contiguous address range: a linear sweep collects branch targets, then
 an emission walk decodes reachable code, resuming after each hard terminator at
 the lowest pending target.
 */
module LiftRange {
  import opened Bytes
  import opened Cpu6502
  import opened Isa
  import opened Ir
  import opened Lifter
  import opened Concatenation

  /** PRG ROM seen at $8000, with the opcode table it is decoded by. */
  datatype Image = Image(table: Table, prg: seq<Byte>) {
    ghost predicate Valid() {
      WellFormedTable(table) && |prg| <= 0x8000
    }
  }

  datatype LiftError =
    | OutsideRange(pc: Address)
    | Truncated(pc: Address)
    | Wraps(pc: Address)      // an instruction ends exactly at $FFFF
    | Rejected(at: Address)   // a profiled site does not match the code

  /** The labels a routine refers to inside and outside its range, and the pointers of its indirect jumps. */
  datatype Names = Names(inside: set<string>, outside: set<string>, pointers: set<Address>) {
    function Add(more: Names): Names {
      Names(inside + more.inside, outside + more.outside, pointers + more.pointers)
    }

    predicate Lists(name: string) {
      name in inside || name in outside
    }
  }

  const NO_NAMES := Names({}, {}, {})

  datatype Routine = Routine(entry: Address, end: Address, name: string, ops: seq<Op>, names: Names) {
    /** The address after the last instruction marker at or before `index`. */
    function NextSourcePc(index: nat): Address
      requires index < |ops|
    {
      match LastSource(ops, index)
      case Some(pc) => pc
      case None => end
    }
  }

  function LastSource(ops: seq<Op>, index: nat): Option<Address>
    requires index < |ops|
  {
    if ops[index].Source? then Some(WrapAddress(ops[index].pc + ops[index].size))
    else if index == 0 then None
    else LastSource(ops, index - 1)
  }

  function InsnAt(image: Image, pc: Address): (r: Result<Instruction, LiftError>)
    ensures r.Ok? ==> r.value.pc == pc && 1 <= r.value.size <= 3
  {
    if pc < 0x8000 then Err(OutsideRange(pc)) else
    match DecodeAt(image.table, image.prg, pc, pc - 0x8000)
    case Some(insn) => Ok(insn)
    case None => Err(Truncated(pc))
  }

  /** In a 32 KiB image an instruction may touch $FFFF but not reach past it. */
  lemma DecodedInsn(image: Image, pc: Address)
    requires image.Valid() && InsnAt(image, pc).Ok?
    ensures InsnAt(image, pc).value.Valid()
    ensures pc + InsnAt(image, pc).value.size <= 0x1_0000
  {
    DecodedIsValid(image.table, image.prg, pc, pc - 0x8000);
  }

  function FindRegion(regions: seq<DataRegion>, pc: Address): (r: Option<DataRegion>)
    ensures r.Some? ==> r.value in regions && r.value.Contains(pc)
    ensures r.None? ==> forall d :: d in regions ==> !d.Contains(pc)
  {
    if regions == [] then None
    else if regions[0].Contains(pc) then Some(regions[0])
    else FindRegion(regions[1..], pc)
  }

  predicate DataByte(opts: LiftOptions, pc: Address) {
    FindRegion(opts.dataRegions, pc).Some?
  }

  predicate InTable(opts: LiftOptions, pc: Address) {
    exists site :: site in opts.engines && site.ContainsTableByte(pc)
  }

  /** The dispatch call an instruction is, if any. */
  function EngineOf(opts: LiftOptions, insn: Instruction): Option<JumpEngineSite> {
    if insn.mnemonic.JSR? && insn.mode.Absolute? then FindEngine(opts.engines, insn.pc) else None
  }

  /** Execution does not continue with the next instruction in memory. */
  predicate Stops(opts: LiftOptions, insn: Instruction) {
    insn.IsTerminator() || EngineOf(opts, insn).Some?
  }

  /** `end.saturating_add(1)`. */
  function AfterRegion(region: DataRegion): Address {
    if region.last < 0xFFFF then region.last + 1 else 0xFFFF
  }

  predicate InRange(opts: LiftOptions, a: Address) {
    opts.start <= a < opts.end
  }

  /** A static target a range can define a label for. */
  predicate InternalTarget(opts: LiftOptions, insn: Instruction, a: Address) {
    && (insn.IsBranch() || (insn.mnemonic.JMP? && insn.mode.Absolute?))
    && insn.BranchTarget() == Some(a)
    && InRange(opts, a) && !DataByte(opts, a) && !InTable(opts, a)
  }

  function TargetsOf(opts: LiftOptions, insn: Instruction): set<Address> {
    var t := insn.BranchTarget();
    if t.Some? && InternalTarget(opts, insn, t.value) then {t.value} else {}
  }

  /** Where the sweep goes on: behind the instruction, or behind its dispatch table unless that ends the range. */
  function SweepOn(opts: LiftOptions, insn: Instruction): (r: Option<Address>)
    requires 1 <= insn.size && insn.pc + insn.size < 0x1_0000
    ensures r.Some? ==> insn.pc < r.value
  {
    match EngineOf(opts, insn)
    case None => Some(insn.pc + insn.size)
    case Some(site) => if site.TableEnd() >= opts.end then None else Some(site.TableEnd())
  }

  /** Pass 1, from `pc` to the end of the range. */
  function CollectTargets(image: Image, opts: LiftOptions, pc: Address): Result<set<Address>, LiftError>
    decreases opts.end - pc
  {
    if pc >= opts.end then Ok({}) else
    match FindRegion(opts.dataRegions, pc)
    case Some(region) => CollectTargets(image, opts, AfterRegion(region))
    case None =>
      match InsnAt(image, pc)
      case Err(e) => Err(e)
      case Ok(insn) =>
        if pc + insn.size >= 0x1_0000 then Err(Wraps(pc)) else
        match SweepOn(opts, insn)
        case None => Ok(TargetsOf(opts, insn))
        case Some(next) =>
          match CollectTargets(image, opts, next)
          case Err(e) => Err(e)
          case Ok(rest) => Ok(TargetsOf(opts, insn) + rest)
  }

  function ExtraTargets(opts: LiftOptions): set<Address> {
    set a | a in opts.extraLabels && InRange(opts, a) && !DataByte(opts, a) && !InTable(opts, a)
  }

  /** The lowest target at or above `from`. */
  function NextTarget(targets: set<Address>, from: int, end: Address): (r: Option<Address>)
    requires from >= 0
    ensures r.Some? ==> from <= r.value < end && r.value in targets
    ensures r.Some? ==> forall a :: a in targets && from <= a ==> r.value <= a
    ensures r.None? ==> forall a :: a in targets && from <= a ==> a >= end
    decreases end - from
  {
    if from >= end then None
    else if from in targets then Some(from)
    else NextTarget(targets, from + 1, end)
  }

  /** What the emission walk visits: an instruction, or the start of a data hole. */
  datatype Item = Code(insn: Instruction) | Hole(at: Address) {
    function Pc(): Address {
      if Code? then insn.pc else at
    }
  }

  datatype Visit = Fails(error: LiftError) | Visits(item: Item, next: Option<Address>)

  /** The targets outside dispatch tables and data. */
  function CodeTargets(opts: LiftOptions, targets: set<Address>): set<Address> {
    set t | t in targets && !DataByte(opts, t) && !InTable(opts, t)
  }

  /** Where pass 2 goes on: behind the instruction, or at the next pending target behind it or behind its table. */
  function WalkOn(opts: LiftOptions, targets: set<Address>, insn: Instruction): (r: Option<Address>)
    requires 1 <= insn.size && insn.pc + insn.size < 0x1_0000
    ensures r.Some? ==> insn.pc < r.value
    ensures !Stops(opts, insn) ==> r == Some(insn.pc + insn.size)
  {
    match EngineOf(opts, insn)
    case Some(site) => NextTarget(CodeTargets(opts, targets), site.TableEnd(), opts.end)
    case None =>
      if insn.IsTerminator() then NextTarget(targets, insn.pc + insn.size, opts.end) else Some(insn.pc + insn.size)
  }

  /** One step of pass 2: what is at `pc`, and where the walk resumes, if anywhere. */
  function VisitAt(image: Image, opts: LiftOptions, targets: set<Address>, pc: Address): (v: Visit)
    requires pc < opts.end
    ensures v.Visits? && v.next.Some? ==> pc < v.next.value
    ensures v.Visits? ==> v.item.Pc() == pc
  {
    match FindRegion(opts.dataRegions, pc)
    case Some(region) => Visits(Hole(pc), NextTarget(targets, AfterRegion(region), opts.end))
    case None =>
      match InsnAt(image, pc)
      case Err(e) => Fails(e)
      case Ok(insn) =>
        var next := pc + insn.size;
        if next >= 0x1_0000 then Fails(Wraps(pc))
        else Visits(Code(insn), WalkOn(opts, targets, insn))
  }

  /** Pass 2, as the list of visited addresses. */
  function Walk(image: Image, opts: LiftOptions, targets: set<Address>, pc: Address): Result<seq<Item>, LiftError>
    decreases opts.end - pc
  {
    if pc >= opts.end then Ok([]) else
    match VisitAt(image, opts, targets, pc)
    case Fails(e) => Err(e)
    case Visits(item, next) =>
      if next.None? then Ok([item]) else Prepend(item, Walk(image, opts, targets, next.value))
  }

  function Prepend(item: Item, rest: Result<seq<Item>, LiftError>): Result<seq<Item>, LiftError> {
    match rest
    case Err(e) => Err(e)
    case Ok(items) => Ok([item] + items)
  }

  function FindConsumeAt(sites: seq<ReturnEscapeSite>, pc: Address): (r: Option<ReturnEscapeSite>)
    ensures r.Some? ==> r.value in sites && r.value.consumeAt == Some(pc)
    ensures r.None? ==> forall s :: s in sites ==> s.consumeAt != Some(pc)
  {
    if sites == [] then None
    else if sites[0].consumeAt == Some(pc) then Some(sites[0])
    else FindConsumeAt(sites[1..], pc)
  }

  function FindReturnConsume(sites: seq<ReturnConsumeSite>, pc: Address): (r: Option<ReturnConsumeSite>)
    ensures r.Some? ==> r.value in sites && r.value.at == pc
    ensures r.None? ==> forall s :: s in sites ==> s.at != pc
  {
    if sites == [] then None
    else if sites[0].at == pc then Some(sites[0])
    else FindReturnConsume(sites[1..], pc)
  }

  /** The label emitted before an instruction; the entry label is not repeated. */
  function LabelOps(opts: LiftOptions, labelled: set<Address>, pc: Address): seq<Op> {
    if pc in labelled && LabelFor(pc, opts) != opts.entryName then [Label(LabelFor(pc, opts))] else []
  }

  function SiteOps(opts: LiftOptions, pc: Address): (ops: seq<Op>)
    ensures forall k :: 0 <= k < |ops| ==> !ops[k].Label? && !ops[k].Source?
  {
    (match FindConsumeAt(opts.returnEscapes, pc)
     case Some(site) => [ReturnEscapeConsume(site.returnAddr)]
     case None => [])
    +
    (match FindReturnConsume(opts.returnConsumes, pc)
     case Some(site) => [ReturnConsume(site.returnAddrs)]
     case None => [])
  }

  function ItemOps(opts: LiftOptions, labelled: set<Address>, item: Item): seq<Op>
    requires item.Code? ==> item.insn.Valid()
  {
    match item
    case Hole(at) => [Jmp(LabelFor(at, opts))]
    case Code(insn) =>
      LabelOps(opts, labelled, insn.pc) + [Source(insn.pc, insn.size)] + SiteOps(opts, insn.pc) + LiftInsn(insn, opts)
  }

  predicate ValidItems(items: seq<Item>) {
    forall k :: 0 <= k < |items| && items[k].Code? ==> items[k].insn.Valid()
  }

  function Blocks(opts: LiftOptions, labelled: set<Address>, items: seq<Item>): (r: seq<seq<Op>>)
    requires ValidItems(items)
    ensures |r| == |items| && forall k {:trigger r[k]} :: 0 <= k < |items| ==> r[k] == ItemOps(opts, labelled, items[k])
  {
    seq(|items|, k requires 0 <= k < |items| => ItemOps(opts, labelled, items[k]))
  }

  function Flatten(opts: LiftOptions, labelled: set<Address>, items: seq<Item>): seq<Op>
    requires ValidItems(items)
  {
    Concat(Blocks(opts, labelled, items))
  }

  // ----- the names a routine lists -----

  /** An instruction other than an absolute jump at a profiled escape is refused. */
  predicate Refused(opts: LiftOptions, insn: Instruction) {
    FindEscape(opts.returnEscapes, insn.pc).Some? && !(insn.mnemonic.JMP? && insn.mode.Absolute?)
  }

  /** The address an instruction refers to by its label. */
  function Referred(opts: LiftOptions, insn: Instruction): Option<Address>
    requires insn.Valid()
  {
    if Refused(opts, insn) then None
    else if Branches(insn.mnemonic) || (insn.mnemonic.JMP? && insn.mode.Absolute?) then insn.BranchTarget()
    else if insn.mnemonic.JSR? && FindEngine(opts.engines, insn.pc).None? then Some(insn.operand.addr)
    else None
  }

  function DispatchNames(opts: LiftOptions, insn: Instruction): set<string> {
    if Refused(opts, insn) || !insn.mnemonic.JSR? then {}
    else
      match FindEngine(opts.engines, insn.pc)
      case None => {}
      case Some(site) => (set n | n in site.targets) + if site.returnTarget.Some? then {site.returnTarget.value} else {}
  }

  /** What one item adds to the lists. */
  function NamesOf(opts: LiftOptions, labelled: set<Address>, item: Item): Names
    requires item.Code? ==> item.insn.Valid()
  {
    match item
    case Hole(at) => Names({}, {LabelFor(at, opts)}, {})
    case Code(insn) =>
      var own := if insn.pc in labelled then {LabelFor(insn.pc, opts)} else {};
      var t := Referred(opts, insn);
      var inside := if t.Some? && InRange(opts, t.value) then {LabelFor(t.value, opts)} else {};
      var outside := if t.Some? && !InRange(opts, t.value) then {LabelFor(t.value, opts)} else {};
      var pointers := if insn.mnemonic.JMP? && insn.mode.Indirect? && !Refused(opts, insn) then {insn.operand.addr} else {};
      Names(own + inside, outside + DispatchNames(opts, insn), pointers)
  }

  function AllNames(opts: LiftOptions, labelled: set<Address>, items: seq<Item>): Names
    requires ValidItems(items)
  {
    if items == [] then NO_NAMES
    else AllNames(opts, labelled, items[..|items| - 1]).Add(NamesOf(opts, labelled, items[|items| - 1]))
  }

  lemma AllNamesOne(opts: LiftOptions, labelled: set<Address>, items: seq<Item>, item: Item)
    requires ValidItems(items) && (item.Code? ==> item.insn.Valid())
    ensures ValidItems(items + [item])
    ensures AllNames(opts, labelled, items + [item]) == AllNames(opts, labelled, items).Add(NamesOf(opts, labelled, item))
  {
    assert (items + [item])[..|items|] == items;
  }

  /** The labels an operation refers to. */
  predicate Mentions(op: Op, name: string) {
    match op
    case BranchIf(_, target) => name == target
    case Jmp(target) => name == target
    case ReturnEscape(target, _, _) => name == target
    case Jsr(target) => name == target
    case MaterializedJsr(target, _) => name == target
    case JumpEngineCall(targets, returnTarget, _, _, _) => name in targets || returnTarget == Some(name)
    case _ => false
  }

  /** An instruction's operations mention only its listed names. */
  lemma LiftMentions(insn: Instruction, opts: LiftOptions, labelled: set<Address>, d: nat, name: string)
    requires insn.Valid() && d < |LiftInsn(insn, opts)| && Mentions(LiftInsn(insn, opts)[d], name)
    ensures NamesOf(opts, labelled, Code(insn)).Lists(name)
  {
  }

  // ----- what the walk guarantees -----

  predicate Increasing(items: seq<Item>) {
    forall j, k :: 0 <= j < k < |items| ==> items[j].Pc() < items[k].Pc()
  }

  /** An instruction that execution falls out of is followed by the next instruction in memory, or by the end of the range. */
  predicate FallsAt(opts: LiftOptions, items: seq<Item>, k: nat)
    requires k < |items|
  {
    items[k].Code? && !Stops(opts, items[k].insn) ==>
      var next := items[k].insn.pc + items[k].insn.size;
      if k + 1 < |items| then items[k + 1].Pc() == next else next >= opts.end
  }

  predicate FallsThrough(opts: LiftOptions, items: seq<Item>) {
    forall k :: 0 <= k < |items| ==> FallsAt(opts, items, k)
  }

  ghost predicate Decoded(image: Image, opts: LiftOptions, items: seq<Item>) {
    forall k :: 0 <= k < |items| ==>
      && InRange(opts, items[k].Pc())
      && (items[k].Hole? <==> DataByte(opts, items[k].Pc()))
      && (items[k].Code? ==> InsnAt(image, items[k].Pc()) == Ok(items[k].insn)
                             && items[k].insn.pc + items[k].insn.size <= 0xFFFF)
  }

  /** Every walk decodes strictly increasing addresses and loses no fall-through. */
  lemma {:induction false} WalkShape(image: Image, opts: LiftOptions, targets: set<Address>, pc: Address)
    requires image.Valid() && opts.start <= pc
    requires Walk(image, opts, targets, pc).Ok?
    ensures var items := Walk(image, opts, targets, pc).value;
            && Increasing(items) && FallsThrough(opts, items) && Decoded(image, opts, items) && ValidItems(items)
            && (pc < opts.end ==> items != [] && items[0].Pc() == pc)
            && (forall k :: 0 <= k < |items| ==> pc <= items[k].Pc())
    decreases opts.end - pc
  {
    var items := Walk(image, opts, targets, pc).value;
    if pc < opts.end {
      var visit := VisitAt(image, opts, targets, pc);
      var first := visit.item;
      if first.Code? {
        DecodedInsn(image, pc);
      }
      var rest: seq<Item> := [];
      if visit.next.Some? {
        WalkShape(image, opts, targets, visit.next.value);
        rest := Walk(image, opts, targets, visit.next.value).value;
      }
      assert items == [first] + rest;
      PrependShape(image, opts, first, rest);
    }
  }

  lemma PrependShape(image: Image, opts: LiftOptions, first: Item, rest: seq<Item>)
    requires Increasing(rest) && FallsThrough(opts, rest) && Decoded(image, opts, rest) && ValidItems(rest)
    requires forall k :: 0 <= k < |rest| ==> first.Pc() < rest[k].Pc()
    requires Decoded(image, opts, [first]) && ValidItems([first])
    requires first.Code? && !Stops(opts, first.insn) ==>
               var next := first.insn.pc + first.insn.size;
               if rest != [] then rest[0].Pc() == next else next >= opts.end
    ensures Increasing([first] + rest) && FallsThrough(opts, [first] + rest)
    ensures Decoded(image, opts, [first] + rest) && ValidItems([first] + rest)
  {
    var items := [first] + rest;
    assert [first][0] == first;
    assert forall k :: 0 < k < |items| ==> items[k] == rest[k - 1];
    forall k | 0 <= k < |items|
      ensures FallsAt(opts, items, k)
    {
      if k > 0 {
        assert FallsAt(opts, rest, k - 1);
      }
    }
  }

  /** After each emitted instruction the walk goes on where `WalkOn` says. */
  lemma {:induction false} WalkFollows(image: Image, opts: LiftOptions, targets: set<Address>, pc: Address, k: nat)
    requires Walk(image, opts, targets, pc).Ok? && k + 1 < |Walk(image, opts, targets, pc).value|
    requires Walk(image, opts, targets, pc).value[k].Code?
    ensures var items := Walk(image, opts, targets, pc).value;
            && 1 <= items[k].insn.size && items[k].insn.pc + items[k].insn.size < 0x1_0000
            && WalkOn(opts, targets, items[k].insn) == Some(items[k + 1].Pc())
    decreases opts.end - pc
  {
    var visit := VisitAt(image, opts, targets, pc);
    var rest := Walk(image, opts, targets, visit.next.value);
    assert Walk(image, opts, targets, pc).value == [visit.item] + rest.value;
    if k > 0 {
      WalkFollows(image, opts, targets, visit.next.value, k - 1);
    } else {
      WalkStartsAt(image, opts, targets, visit.next.value);
    }
  }

  lemma WalkStartsAt(image: Image, opts: LiftOptions, targets: set<Address>, pc: Address)
    requires Walk(image, opts, targets, pc).Ok? && Walk(image, opts, targets, pc).value != []
    ensures Walk(image, opts, targets, pc).value[0].Pc() == pc
  {
  }

  // ----- the image on the interpreter's bus -----

  /** The image's bytes are what the bus holds from $8000, and cannot be overwritten. */
  ghost predicate CodeLoaded(image: Image, bus: Bus) {
    && bus.romStart <= 0x8000
    && |image.prg| <= 0x8000
    && forall i :: 0 <= i < |image.prg| ==> bus.mem[0x8000 + i] == image.prg[i]
  }

  /** The interpreter decodes from the bus what the lifter decoded from the image. */
  lemma SameInstruction(image: Image, m: Machine, pc: Address)
    requires CodeLoaded(image, m.bus) && InsnAt(image, pc).Ok?
    ensures Current(image.table, Cpu(pc, m)) == InsnAt(image, pc).value
  {
    var raw := Fetch(m.bus, pc);
    var offset := pc - 0x8000;
    forall k | 0 <= k < 3 && offset + k < |image.prg|
      ensures raw[k] == image.prg[offset + k]
    {
      assert m.bus.mem[0x8000 + (offset + k)] == image.prg[offset + k];
    }
    DecodeLocal(image.table, image.prg, raw, pc, offset);
  }
}
