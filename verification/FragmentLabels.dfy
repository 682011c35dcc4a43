/** Which label each address of a fragment gets, and exactly when a fragment compiles. */
module FragmentLabels {
  import opened Bytes
  import opened Lifter
  import opened AscendingOrder
  import opened FragmentCompiler
  import opened FragmentLayout

  // ----- what the decoder delivers -----

  /** Instruction `k` is what the bytes at its address decode to, and the next one follows it. */
  predicate DecodedAt(bytes: seq<Byte>, start: Address, ds: seq<Decoded>, k: nat)
    requires start + |bytes| < 0x1_0000 && k < |ds|
  {
    && 0 <= ds[k].pc - start < |bytes|
    && DecodeOne(bytes, start, ds[k].pc - start) == Ok(ds[k])
    && ds[k].pc + ds[k].op.Size() == if k + 1 == |ds| then start + |bytes| else ds[k + 1].pc
  }

  lemma {:induction false} DecodesAll(bytes: seq<Byte>, start: Address, offset: nat, k: nat)
    requires offset <= |bytes| && start + |bytes| < 0x1_0000
    requires DecodeFrom(bytes, start, offset).Ok?
    ensures var ds := DecodeFrom(bytes, start, offset).value;
            && (ds == [] <==> offset == |bytes|)
            && (ds != [] ==> ds[0].pc == start + offset)
            && (k < |ds| ==> DecodedAt(bytes, start, ds, k))
    decreases |bytes| - offset
  {
    if offset < |bytes| {
      var d := DecodeOne(bytes, start, offset).value;
      var rest := DecodeFrom(bytes, start, offset + d.op.Size()).value;
      DecodesAll(bytes, start, offset + d.op.Size(), if k == 0 then 0 else k - 1);
      assert ([d] + rest)[1..] == rest;
    }
  }

  // ----- branch targets -----

  lemma {:induction false} TargetOf(ds: seq<Decoded>, k: nat)
    requires k < |ds| && ds[k].op.IsBranch()
    ensures ds[k].op.target in Targets(ds)
  {
    if k < |ds| - 1 {
      TargetOf(ds[..|ds| - 1], k);
    }
  }

  function BranchCount(ds: seq<Decoded>): nat {
    if ds == [] then 0 else BranchCount(ds[..|ds| - 1]) + if ds[|ds| - 1].op.IsBranch() then 1 else 0
  }

  lemma {:induction false} FewTargets(ds: seq<Decoded>)
    ensures |Targets(ds)| <= BranchCount(ds)
  {
    if ds != [] {
      FewTargets(ds[..|ds| - 1]);
    }
  }

  lemma SubsetSize<T>(a: set<T>, b: set<T>)
    requires a <= b
    ensures |a| <= |b|
  {
    assert b == a + (b - a);
  }

  // ----- fragments -----

  ghost predicate ExitsListed(f: Fragment) {
    && Increasing(f.exits)
    && (forall t :: t in f.exits <==> t in Targets(f.ds) && !(f.start <= t < f.End()))
    && |f.exits| <= BranchCount(f.ds)
  }

  /** A decoded slice in cartridge space whose end does not overflow, with its targets sorted into labels and exits. */
  ghost predicate Valid(f: Fragment) {
    && 0x8000 <= f.start && f.End() < 0x1_0000
    && (f.ds == [] ==> f.bytes == [])
    && (f.ds != [] ==> f.ds[0].pc == f.start)
    && (forall k :: 0 <= k < |f.ds| ==> DecodedAt(f.bytes, f.start, f.ds, k))
    && LabelsListed(f)
    && ExitsListed(f)
  }

  ghost predicate LabelsListed(f: Fragment) {
    forall t :: t in f.labelled <==> t == f.start || (t in Targets(f.ds) && f.start <= t < f.End())
  }

  /** The compiler's own fragment for a slice. */
  function FragmentOf(bytes: seq<Byte>, start: Address, entry: string, ds: seq<Decoded>): Fragment {
    var end := start + |bytes|;
    Fragment(bytes, start, entry, ds, Inside(ds, start, end), Ascending(Outside(ds, start, end), 0))
  }

  lemma ExitsAreListed(f: Fragment)
    requires f.exits == Ascending(Outside(f.ds, f.start, f.End()), 0)
    ensures ExitsListed(f)
  {
    var out := Outside(f.ds, f.start, f.End());
    AscendingLists(out);
    ListSize(f.exits, out);
    SubsetSize(out, Targets(f.ds));
    FewTargets(f.ds);
  }

  lemma LabelsAreListed(f: Fragment)
    requires f.labelled == Inside(f.ds, f.start, f.End())
    ensures LabelsListed(f)
  {
  }

  lemma SliceDecodes(bytes: seq<Byte>, start: Address, ds: seq<Decoded>)
    requires start + |bytes| < 0x1_0000 && DecodeFrom(bytes, start, 0) == Ok(ds)
    ensures (ds == [] ==> bytes == []) && (ds != [] ==> ds[0].pc == start)
    ensures forall k :: 0 <= k < |ds| ==> DecodedAt(bytes, start, ds, k)
  {
    DecodesAll(bytes, start, 0, 0);
    forall k | 0 <= k < |ds|
      ensures DecodedAt(bytes, start, ds, k)
    {
      DecodesAll(bytes, start, 0, k);
    }
  }

  lemma FragmentOfIsValid(bytes: seq<Byte>, start: Address, entry: string, ds: seq<Decoded>)
    requires 0x8000 <= start && start + |bytes| < 0x1_0000
    requires DecodeFrom(bytes, start, 0) == Ok(ds)
    ensures Valid(FragmentOf(bytes, start, entry, ds))
  {
    SliceDecodes(bytes, start, ds);
    var f := FragmentOf(bytes, start, entry, ds);
    LabelsAreListed(f);
    ExitsAreListed(f);
  }

  lemma OpsAreLifted(bytes: seq<Byte>, start: Address, entry: string, ds: seq<Decoded>)
    ensures FragmentOf(bytes, start, entry, ds).Ops() == Lifted(ds, start, start + |bytes|, entry)
  {
  }

  lemma {:induction false} PcsIncrease(f: Fragment, j: nat, k: nat)
    requires Valid(f) && j < k < |f.ds|
    ensures f.ds[j].pc < f.ds[k].pc
    decreases k
  {
    assert DecodedAt(f.bytes, f.start, f.ds, k - 1);
    if j < k - 1 {
      PcsIncrease(f, j, k - 1);
    }
  }

  // ----- the code fits sixteen-bit labels -----

  /** One more instruction adds its width to the place of the next item. */
  lemma InstructionWidth(f: Fragment, k: nat)
    requires k < |f.ds|
    ensures Place(f.Items(), k + 1) == Place(f.Items(), k) + Width(LiftOp(f.ds[k].op))
    ensures BranchCount(f.ds[..k + 1]) == BranchCount(f.ds[..k]) + if f.ds[k].op.IsBranch() then 1 else 0
  {
    assert f.ds[..k + 1][..k] == f.ds[..k];
    assert f.Items()[k] == f.InstructionItem(k);
  }

  /** A branch needs one byte more than its width, and everything fits in twice its size. */
  lemma WidthFits(op: DecodedOp)
    ensures Width(LiftOp(op)) + (if op.IsBranch() then 1 else 0) <= 2 * op.Size()
  {
  }

  lemma {:induction false} InstructionsFit(f: Fragment, k: nat)
    requires Valid(f) && k <= |f.ds|
    ensures Place(f.Items(), k) + BranchCount(f.ds[..k]) <= 2 * (if k < |f.ds| then f.ds[k].pc - f.start else |f.bytes|)
  {
    if k == 0 {
      assert f.ds != [] ==> DecodedAt(f.bytes, f.start, f.ds, 0);
    } else {
      assert DecodedAt(f.bytes, f.start, f.ds, k - 1);
      InstructionsFit(f, k - 1);
      InstructionWidth(f, k - 1);
      WidthFits(f.ds[k - 1].op);
    }
  }

  lemma {:induction false} StubsFit(f: Fragment, j: nat)
    requires j <= |f.exits|
    ensures Place(f.Items(), |f.ds| + j) == Place(f.Items(), |f.ds|) + j
  {
    hide Fragment.InstructionItem, AutoLabel, LiftOp;
    if j > 0 {
      StubsFit(f, j - 1);
      var items := f.Items();
      assert items[|f.ds| + j - 1] == f.StubItem(j - 1);
    }
  }

  /** Two bytes per source byte always suffice, so no label position wraps. */
  lemma CodeFits(f: Fragment, k: nat)
    requires Valid(f) && k <= |f.Items()|
    ensures Place(f.Items(), k) <= 2 * |f.bytes| < 0x1_0000
  {
    hide *;
    AllItemsFit(f);
    PlaceMonotone(f.Items(), k, |f.ds| + |f.exits|);
  }

  lemma AllItemsFit(f: Fragment)
    requires Valid(f)
    ensures Place(f.Items(), |f.ds| + |f.exits|) <= 2 * |f.bytes| < 0x1_0000
  {
    hide *;
    AllInstructionsFit(f);
    StubsFit(f, |f.exits|);
    SliceIsShort(f);
  }

  lemma SliceIsShort(f: Fragment)
    requires Valid(f)
    ensures 2 * |f.bytes| < 0x1_0000
  {
  }

  lemma AllInstructionsFit(f: Fragment)
    requires Valid(f)
    ensures Place(f.Items(), |f.ds|) + |f.exits| <= 2 * |f.bytes|
  {
    InstructionsFit(f, |f.ds|);
    assert f.ds[..|f.ds|] == f.ds;
  }

  // ----- labels -----

  lemma AutoLabelInjective(a: Address, b: Address)
    requires AutoLabel(a) == AutoLabel(b)
    ensures a == b
  {
    assert AutoLabel(a)[2..] == Hex4(a) && AutoLabel(b)[2..] == Hex4(b);
    Hex4Injective(a, b);
  }

  lemma NameOfInjective(f: Fragment, a: Address, b: Address)
    requires f.EntryIsFresh() && NameOf(a, f.start, f.entry) == NameOf(b, f.start, f.entry)
    ensures a == b
  {
    if a != f.start && b != f.start {
      AutoLabelInjective(a, b);
    }
  }

  /** The source address an item stands for. */
  function AddressOf(f: Fragment, k: nat): Address
    requires k < |f.Items()|
  {
    if k < |f.ds| then f.ds[k].pc else f.exits[k - |f.ds|]
  }

  lemma NamedIsNameOf(f: Fragment, k: nat, name: string)
    requires Valid(f) && Named(f.Items(), k, name)
    ensures name == NameOf(AddressOf(f, k), f.start, f.entry)
  {
    hide LiftOp;
    if k < |f.ds| {
      assert f.Items()[k] == f.InstructionItem(k);
    } else {
      StubIsNamed(f, k - |f.ds|, name);
    }
  }

  lemma StubIsNamed(f: Fragment, j: nat, name: string)
    requires Valid(f) && j < |f.exits| && Named(f.Items(), |f.ds| + j, name)
    ensures name == NameOf(f.exits[j], f.start, f.entry)
  {
    assert f.Items()[|f.ds| + j] == f.StubItem(j);
    assert f.exits[j] in f.exits;
    assert f.ds != [] ==> DecodedAt(f.bytes, f.start, f.ds, 0);
  }

  lemma AddressesDiffer(f: Fragment, j: nat, k: nat)
    requires Valid(f) && j < k < |f.Items()|
    ensures AddressOf(f, j) != AddressOf(f, k)
  {
    if k < |f.ds| {
      PcsIncrease(f, j, k);
    } else if j < |f.ds| {
      assert DecodedAt(f.bytes, f.start, f.ds, j);
      assert f.exits[k - |f.ds|] in f.exits;
    }
  }

  lemma FragmentNamesDiffer(f: Fragment)
    requires Valid(f) && f.EntryIsFresh()
    ensures NamesDiffer(f.Items())
  {
    forall j, k, name | Named(f.Items(), j, name) && Named(f.Items(), k, name)
      ensures j == k
    {
      NamedIsNameOf(f, j, name);
      NamedIsNameOf(f, k, name);
      NameOfInjective(f, AddressOf(f, j), AddressOf(f, k));
      if j < k { AddressesDiffer(f, j, k); } else if k < j { AddressesDiffer(f, k, j); }
    }
  }

  lemma FragmentEmits(f: Fragment)
    ensures Emits(f.Items())
  {
    forall k | 0 <= k < |f.Items()|
      ensures !f.Items()[k].op.Label?
    {
      if k < |f.ds| {
        assert f.Items()[k] == f.InstructionItem(k);
      } else {
        assert f.Items()[k] == f.StubItem(k - |f.ds|);
      }
    }
  }

  lemma LabelMapMatches(f: Fragment)
    requires Valid(f) && f.EntryIsFresh()
    ensures Matches(f.Items(), f.LabelMap())
  {
    OpsAreItems(f);
    FragmentEmits(f);
    FragmentNamesDiffer(f);
    LabelsMatch(f.Items());
  }

  /** Every item's name is mapped to the item's place. */
  lemma MatchedPlace(items: seq<Item>, labels: map<string, Address>, k: nat, name: string, at: nat)
    requires Matches(items, labels) && Named(items, k, name) && at == Place(items, k) < 0x1_0000
    ensures name in labels && labels[name] == at
  {
  }

  lemma LabelIsPlace(f: Fragment, items: seq<Item>, labels: map<string, Address>, k: nat, name: string)
    requires Valid(f) && items == f.Items() && Matches(items, labels) && Named(items, k, name)
    ensures name in labels && labels[name] == Place(items, k)
  {
    CodeFits(f, k);
    MatchedPlace(items, labels, k, name, Place(items, k));
  }

  // ----- when compilation succeeds -----

  predicate Boundary(f: Fragment, t: Address) {
    exists k :: 0 <= k < |f.ds| && f.ds[k].pc == t
  }

  /** A branch may leave the slice, or reach an instruction other than the first, which only the entry name labels. */
  predicate TargetOk(f: Fragment, t: Address) {
    f.start <= t < f.End() ==> Boundary(f, t) && (t == f.start ==> f.entry == AutoLabel(t))
  }

  /** The item a good branch target names. */
  lemma TargetItem(f: Fragment, k: nat) returns (j: nat)
    requires Valid(f) && k < |f.ds| && f.ds[k].op.IsBranch() && TargetOk(f, f.ds[k].op.target)
    ensures j < |f.Items()| && AddressOf(f, j) == f.ds[k].op.target
    ensures Named(f.Items(), j, AutoLabel(f.ds[k].op.target))
  {
    var t := f.ds[k].op.target;
    TargetOf(f.ds, k);
    if f.start <= t < f.End() {
      j :| 0 <= j < |f.ds| && f.ds[j].pc == t;
      assert f.Items()[j] == f.InstructionItem(j);
      assert t in f.labelled;
    } else {
      var i :| 0 <= i < |f.exits| && f.exits[i] == t;
      j := |f.ds| + i;
      assert f.Items()[j] == f.StubItem(i);
    }
  }

  lemma NamedTargetIsOk(f: Fragment, t: Address, j: nat)
    requires Valid(f) && f.EntryIsFresh() && Named(f.Items(), j, AutoLabel(t))
    ensures TargetOk(f, t)
  {
    NamedIsNameOf(f, j, AutoLabel(t));
    var a := AddressOf(f, j);
    if a != f.start {
      AutoLabelInjective(a, t);
    }
    assert a == t;
    if j >= |f.ds| {
      assert f.exits[j - |f.ds|] in f.exits;
    }
  }

  ghost predicate TargetsOk(f: Fragment) {
    forall k :: 0 <= k < |f.ds| && f.ds[k].op.IsBranch() ==> TargetOk(f, f.ds[k].op.target)
  }

  lemma TargetResolves(f: Fragment, items: seq<Item>, labels: map<string, Address>, k: nat)
    requires Valid(f) && f.EntryIsFresh() && items == f.Items() && Matches(items, labels)
    requires k < |f.ds| && f.ds[k].op.IsBranch()
    ensures AutoLabel(f.ds[k].op.target) in labels <==> TargetOk(f, f.ds[k].op.target)
  {
    var name := AutoLabel(f.ds[k].op.target);
    if TargetOk(f, f.ds[k].op.target) {
      var j := TargetItem(f, k);
    }
    if name in labels {
      var j :| Named(items, j, name);
      NamedTargetIsOk(f, f.ds[k].op.target, j);
    }
  }

  lemma ItemResolves(f: Fragment, items: seq<Item>, labels: map<string, Address>, k: nat)
    requires Valid(f) && f.EntryIsFresh() && items == f.Items() && Matches(items, labels)
    requires k < |items|
    ensures (Names(items[k].op) ==> items[k].op.name in labels)
            <==> (k < |f.ds| && f.ds[k].op.IsBranch() ==> TargetOk(f, f.ds[k].op.target))
  {
    if k < |f.ds| {
      assert items[k] == f.InstructionItem(k);
      if f.ds[k].op.IsBranch() {
        TargetResolves(f, items, labels, k);
      }
    } else {
      assert items[k] == f.StubItem(k - |f.ds|);
    }
  }

  lemma ResolvesIff(f: Fragment)
    requires Valid(f) && f.EntryIsFresh()
    ensures Resolves(f.Ops(), f.LabelMap()) <==> TargetsOk(f)
  {
    var items, labels := f.Items(), f.LabelMap();
    OpsAreItems(f);
    ResolvesItems(items, labels);
    LabelMapMatches(f);
    forall k | 0 <= k < |items|
      ensures (Names(items[k].op) ==> items[k].op.name in labels)
              <==> (k < |f.ds| && f.ds[k].op.IsBranch() ==> TargetOk(f, f.ds[k].op.target))
    {
      ItemResolves(f, items, labels, k);
    }
  }

  lemma LiftsToOps(prg: seq<Byte>, start: Address, bytes: seq<Byte>, entry: string, ds: seq<Decoded>)
    requires 0x8000 <= start && start + |bytes| < 0x1_0000
    requires |prg| >= start - 0x8000 + |bytes| && prg[start - 0x8000..start - 0x8000 + |bytes|] == bytes
    requires DecodeFrom(bytes, start, 0) == Ok(ds)
    ensures LiftedRange(prg, start, bytes, entry) == Ok(FragmentOf(bytes, start, entry, ds).Ops())
  {
    OpsAreLifted(bytes, start, entry, ds);
  }

  /** A decodable slice compiles exactly when every branch inside it lands on an instruction other than its unlabelled start. */
  lemma CompilesIff(prg: seq<Byte>, start: Address, bytes: seq<Byte>, entry: string, ds: seq<Decoded>)
    requires 0x8000 <= start && start + |bytes| < 0x1_0000
    requires |prg| >= start - 0x8000 + |bytes| && prg[start - 0x8000..start - 0x8000 + |bytes|] == bytes
    requires DecodeFrom(bytes, start, 0) == Ok(ds) && FragmentOf(bytes, start, entry, ds).EntryIsFresh()
    ensures var f := FragmentOf(bytes, start, entry, ds);
            && Valid(f)
            && Compiled(prg, start, bytes, entry) == TwoPass(f.Ops())
            && (Compiled(prg, start, bytes, entry).Ok? <==> TargetsOk(f))
  {
    LiftsToOps(prg, start, bytes, entry, ds);
    FragmentOfIsValid(bytes, start, entry, ds);
    ResolvesIff(FragmentOf(bytes, start, entry, ds));
  }

  /** `loop: BNE loop` at $8000: the branch asks for `L_8000`, which only the entry name defines. */
  lemma SelfBranchDoesNotCompile(prg: seq<Byte>)
    requires |prg| >= 2 && prg[0..2] == [0xD0, 0xFE]
    ensures Compiled(prg, 0x8000, [0xD0, 0xFE], "loop") == Err(Unresolved)
  {
    var bytes: seq<Byte> := [0xD0, 0xFE];
    var ds := [Decoded(0x8000, Bne(0x8000))];
    assert DecodeOne(bytes, 0x8000, 0) == Ok(ds[0]);
    assert DecodeFrom(bytes, 0x8000, 2) == Ok([]);
    var none: seq<Decoded> := [];
    assert [ds[0]] + none == ds;
    assert DecodeFrom(bytes, 0x8000, 0) == Ok(ds);
    LoopIsFresh(FragmentOf(bytes, 0x8000, "loop", ds));
    CompilesIff(prg, 0x8000, bytes, "loop", ds);
    TargetFails(FragmentOf(bytes, 0x8000, "loop", ds));
    var ops := FragmentOf(bytes, 0x8000, "loop", ds).Ops();
    assert TwoPass(ops).Err? ==> TwoPass(ops) == Err(Unresolved);
  }

  lemma LoopIsFresh(f: Fragment)
    requires f.entry == "loop"
    ensures f.EntryIsFresh()
  {
    forall a: Address
      ensures AutoLabel(a) != f.entry
    {
      assert AutoLabel(a)[0] == 'L';
    }
  }

  lemma TargetFails(f: Fragment)
    requires f.entry == "loop" && f.start == 0x8000 && |f.bytes| == 2 && f.ds == [Decoded(0x8000, Bne(0x8000))]
    ensures !TargetsOk(f)
  {
    assert AutoLabel(0x8000)[0] == 'L';
    assert f.ds[0].op.IsBranch();
  }
}
