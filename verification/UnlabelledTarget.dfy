/**
 A concrete range in which the sweep and the emission walk disagree about
 instruction boundaries, so that an emitted branch has an emitted target without a
 label: the lifted routine leaves where the interpreter stays.
 */
module UnlabelledTarget {
  import opened Bytes
  import opened Cpu6502
  import opened Isa
  import opened Ir
  import opened Lifter
  import opened LiftRange
  import opened RoutineSimulation
  import opened RangeLifter
  import opened OpcodeTable

  /** The six opcode rows the example uses. */
  ghost predicate UsesRows(table: Table) {
    && WellFormedTable(table)
    && table[0xEA] == OpInfo(NOP, Implied) && table[0x4C] == OpInfo(JMP, Absolute)
    && table[0x2C] == OpInfo(BIT, Absolute) && table[0xD0] == OpInfo(BNE, Relative)
    && table[0xF9] == OpInfo(SBC, AbsoluteY) && table[0x60] == OpInfo(RTS, Implied)
  }

  lemma ShippedTableUsesRows()
    ensures UsesRows(Shipped())
  {
    ShippedIsWellFormed();
    assert Lookup(0xEA) == RowE(0xA) && Lookup(0x4C) == Row4(0xC) && Lookup(0x2C) == Row2(0xC);
    assert Lookup(0xD0) == RowD(0) && Lookup(0xF9) == RowF(9) && Lookup(0x60) == Row6(0);
  }

  /** `NOP / JMP $8006 / data 2C 00 / $8006: BNE $8001 / RTS`: the sweep reads the data as `BIT $D000`. */
  function Code(): seq<Byte> {
    [0xEA, 0x4C, 0x06, 0x80, 0x2C, 0x00, 0xD0, 0xF9, 0x60, 0x00]
  }

  function Options(): LiftOptions {
    LiftOptions(0x8000, 0x8009, "L_8000", None, 0x8000, 0xC000, [], [], [], [], [], [])
  }

  ghost predicate Loaded(image: Image) {
    UsesRows(image.table) && image.prg == Code()
  }

  lemma CodeBytes()
    ensures |Code()| == 10
    ensures Code()[0] == 0xEA && Code()[1] == 0x4C && Code()[2] == 0x06 && Code()[3] == 0x80 && Code()[4] == 0x2C
    ensures Code()[5] == 0x00 && Code()[6] == 0xD0 && Code()[7] == 0xF9 && Code()[8] == 0x60 && Code()[9] == 0x00
  {
  }

  lemma Decode8000(image: Image)
    requires Loaded(image)
    ensures InsnAt(image, 0x8000) == Ok(Instruction(0x8000, 0xEA, NOP, Implied, NoOperand, 1))
  {
    hide Code, WellFormedTable;
    CodeBytes();
  }

  lemma Decode8001(image: Image)
    requires Loaded(image)
    ensures InsnAt(image, 0x8001) == Ok(Instruction(0x8001, 0x4C, JMP, Absolute, Addr(0x8006), 3))
  {
    hide Code, WellFormedTable;
    CodeBytes();
  }

  lemma Decode8004(image: Image)
    requires Loaded(image)
    ensures InsnAt(image, 0x8004) == Ok(Instruction(0x8004, 0x2C, BIT, Absolute, Addr(0xD000), 3))
  {
    hide Code, WellFormedTable;
    CodeBytes();
  }

  lemma Decode8006(image: Image)
    requires Loaded(image)
    ensures InsnAt(image, 0x8006) == Ok(Instruction(0x8006, 0xD0, BNE, Relative, Rel(0xF9), 2))
  {
    hide Code, WellFormedTable;
    CodeBytes();
  }

  lemma Decode8007(image: Image)
    requires Loaded(image)
    ensures InsnAt(image, 0x8007) == Ok(Instruction(0x8007, 0xF9, SBC, AbsoluteY, Addr(0x0060), 3))
  {
    hide Code, WellFormedTable;
    CodeBytes();
  }

  lemma Decode8008(image: Image)
    requires Loaded(image)
    ensures InsnAt(image, 0x8008) == Ok(Instruction(0x8008, 0x60, RTS, Implied, NoOperand, 1))
  {
    hide Code, WellFormedTable;
    CodeBytes();
  }

  /** What the six addresses decode to. */
  predicate Listing(image: Image) {
    && InsnAt(image, 0x8000) == Ok(Instruction(0x8000, 0xEA, NOP, Implied, NoOperand, 1))
    && InsnAt(image, 0x8001) == Ok(Instruction(0x8001, 0x4C, JMP, Absolute, Addr(0x8006), 3))
    && InsnAt(image, 0x8004) == Ok(Instruction(0x8004, 0x2C, BIT, Absolute, Addr(0xD000), 3))
    && InsnAt(image, 0x8006) == Ok(Instruction(0x8006, 0xD0, BNE, Relative, Rel(0xF9), 2))
    && InsnAt(image, 0x8007) == Ok(Instruction(0x8007, 0xF9, SBC, AbsoluteY, Addr(0x0060), 3))
    && InsnAt(image, 0x8008) == Ok(Instruction(0x8008, 0x60, RTS, Implied, NoOperand, 1))
  }

  lemma Decodes(image: Image)
    requires Loaded(image)
    ensures Listing(image)
  {
    Decode8000(image); Decode8001(image); Decode8004(image);
    Decode8006(image); Decode8007(image); Decode8008(image);
  }

  lemma SweepTail(image: Image)
    requires Listing(image)
    ensures CollectTargets(image, Options(), 0x8004) == Ok({})
  {
    var o := Options();
    var none: set<Address> := {};
    assert none + none == none;
    assert CollectTargets(image, o, 0x800A) == Ok(none);
    assert TargetsOf(o, InsnAt(image, 0x8007).value) == none;
    assert CollectTargets(image, o, 0x8007) == Ok(none + none);
    assert TargetsOf(o, InsnAt(image, 0x8004).value) == none;
  }

  lemma SweepFindsOneTarget(image: Image)
    requires Listing(image)
    ensures CollectTargets(image, Options(), 0x8000) == Ok({0x8006})
  {
    SweepTail(image);
    var o := Options();
    var none: set<Address> := {};
    assert TargetsOf(o, InsnAt(image, 0x8001).value) == {0x8006};
    assert CollectTargets(image, o, 0x8001) == Ok({0x8006} + none);
    assert TargetsOf(o, InsnAt(image, 0x8000).value) == none;
    assert none + ({0x8006} + none) == {0x8006};
  }

  lemma WalkTail(image: Image)
    requires Listing(image)
    ensures Walk(image, Options(), {0x8006}, 0x8006)
            == Ok([Item.Code(InsnAt(image, 0x8006).value), Item.Code(InsnAt(image, 0x8008).value)])
  {
    var o, t := Options(), {0x8006};
    var last := [Item.Code(InsnAt(image, 0x8008).value)];
    assert VisitAt(image, o, t, 0x8008) == Visits(Item.Code(InsnAt(image, 0x8008).value), None);
    assert Walk(image, o, t, 0x8008) == Ok(last);
    assert [Item.Code(InsnAt(image, 0x8006).value)] + last
           == [Item.Code(InsnAt(image, 0x8006).value), Item.Code(InsnAt(image, 0x8008).value)];
  }

  lemma WalkSecond(image: Image)
    requires Listing(image)
    ensures VisitAt(image, Options(), {0x8006}, 0x8001) == Visits(Item.Code(InsnAt(image, 0x8001).value), Some(0x8006))
  {
    var o, t := Options(), {0x8006};
    assert NextTarget(t, 0x8005, o.end) == NextTarget(t, 0x8006, o.end) == Some(0x8006);
  }

  lemma WalkFrom8001(image: Image)
    requires Listing(image)
    ensures Walk(image, Options(), {0x8006}, 0x8001)
            == Ok([Item.Code(InsnAt(image, 0x8001).value), Item.Code(InsnAt(image, 0x8006).value), Item.Code(InsnAt(image, 0x8008).value)])
  {
    WalkTail(image);
    WalkSecond(image);
    var i1, i2, i3 := Item.Code(InsnAt(image, 0x8001).value), Item.Code(InsnAt(image, 0x8006).value), Item.Code(InsnAt(image, 0x8008).value);
    assert [i1] + [i2, i3] == [i1, i2, i3];
  }

  lemma WalkFirst(image: Image)
    requires Listing(image)
    ensures VisitAt(image, Options(), {0x8006}, 0x8000) == Visits(Item.Code(InsnAt(image, 0x8000).value), Some(0x8001))
  {
    hide InsnAt;
  }

  lemma WalkEmitsFour(image: Image)
    requires Listing(image)
    ensures Walk(image, Options(), {0x8006}, 0x8000)
            == Ok([Item.Code(InsnAt(image, 0x8000).value), Item.Code(InsnAt(image, 0x8001).value),
                   Item.Code(InsnAt(image, 0x8006).value), Item.Code(InsnAt(image, 0x8008).value)])
  {
    hide VisitAt, InsnAt, Options;
    WalkFrom8001(image);
    var i0, i1 := Item.Code(InsnAt(image, 0x8000).value), Item.Code(InsnAt(image, 0x8001).value);
    var i2, i3 := Item.Code(InsnAt(image, 0x8006).value), Item.Code(InsnAt(image, 0x8008).value);
    WalkFirst(image);
    assert [i0] + [i1, i2, i3] == [i0, i1, i2, i3];
  }

  lemma PlanOf(image: Image)
    requires Listing(image)
    ensures Plan(image, Options())
            == Ok(Lifted(image, Options(), {0x8006},
                         [Item.Code(InsnAt(image, 0x8000).value), Item.Code(InsnAt(image, 0x8001).value),
                          Item.Code(InsnAt(image, 0x8006).value), Item.Code(InsnAt(image, 0x8008).value)]))
  {
    SweepFindsOneTarget(image);
    WalkEmitsFour(image);
    assert ExtraTargets(Options()) == {};
    assert {0x8006} + ExtraTargets(Options()) == {0x8006};
  }

  lemma LeavesFor8001(l: Lifted, m: Machine)
    requires l.Valid() && l.opts == Options() && l.labelled == {0x8006}
    ensures !Enterable(l, 0x8001)
    ensures LeftFor(l, Goto(l.Ops(), LabelFor(0x8001, l.opts), m), Cpu(0x8001, m))
  {
    EnterableIffLabelled(l, 0x8001);
    OtherLabel(0x8001);
    var k := GotoFollows(l, 0x8001, m);
  }

  lemma BackBranch()
    ensures Instruction(0x8006, 0xD0, BNE, Relative, Rel(0xF9), 2).BranchTarget() == Some(0x8001)
  {
  }

  lemma ShapeOf(image: Image)
    requires Listing(image)
    ensures Plan(image, Options()).Ok?
    ensures var l := Plan(image, Options()).value;
            && l.opts == Options() && l.labelled == {0x8006} && |l.items| == 4
            && l.items[2].Code? && l.items[2].insn.BranchTarget() == Some(0x8001)
            && l.items[1].Code? && l.items[1].Pc() == 0x8001
  {
    PlanOf(image);
    BackBranch();
    var items := Plan(image, Options()).value.items;
    assert items[2] == Item.Code(Instruction(0x8006, 0xD0, BNE, Relative, Rel(0xF9), 2));
    assert items[1] == Item.Code(Instruction(0x8001, 0x4C, JMP, Absolute, Addr(0x8006), 3));
  }

  lemma ListingLeaves(image: Image, m: Machine)
    requires Listing(image) && image.Valid()
    ensures Plan(image, Options()).Ok?
    ensures var l := Plan(image, Options()).value;
            && l.Valid() && Leaves(l, m)
  {
    ShapeOf(image);
    var l := Plan(image, Options()).value;
    CleanEntry(l);
    PlanIsValid(image, Options());
    LeavesFor8001(l, m);
  }

  /** An emitted branch whose emitted target is entered by no label, so that taking it leaves the routine. */
  ghost predicate Leaves(l: Lifted, m: Machine)
    requires ValidItems(l.items)
  {
    && |l.items| == 4
    && l.items[2].Code? && l.items[2].insn.BranchTarget() == Some(0x8001)
    && l.items[1].Code? && l.items[1].Pc() == 0x8001
    && !Enterable(l, 0x8001)
    && LeftFor(l, Goto(l.Ops(), LabelFor(0x8001, l.opts), m), Cpu(0x8001, m))
  }

  /** Over the shipped table the range lifts, and its BNE at $8006 leaves for the emitted JMP at $8001. */
  lemma TakenBranchLeaves(m: Machine)
    ensures var image := Image(Shipped(), Code());
            && Plan(image, Options()).Ok?
            && Plan(image, Options()).value.Valid() && Leaves(Plan(image, Options()).value, m)
  {
    var image := Image(Shipped(), Code());
    ShippedTableUsesRows();
    Decodes(image);
    ListingLeaves(image, m);
  }

  lemma OtherLabel(a: Address)
    ensures LabelFor(a, Options()) == "L_8000" ==> a == 0x8000
  {
    assert Hex4(0x8000) == "8000";
    assert LabelFor(0x8000, Options()) == "L_" + Hex4(0x8000) == "L_8000";
    if LabelFor(a, Options()) == "L_8000" {
      LabelForInjective(a, 0x8000, Options());
    }
  }

  lemma CleanEntry(l: Lifted)
    requires l.opts == Options()
    ensures l.EntryNameIsClean()
  {
    forall a: Address | LabelFor(a, l.opts) == l.opts.entryName
      ensures a == l.opts.start
    {
      OtherLabel(a);
    }
  }
}
