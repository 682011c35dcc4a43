/** Where a compiled fragment places its instructions and stubs, and when compilation succeeds. */
module FragmentLayout {
  import opened Bytes
  import opened FragmentCompiler

  /** One labelled or unlabelled operation; stubs carry no source note. */
  datatype Item = Item(tag: Option<string>, source: Option<Address>, op: IrOp)

  function ItemOps(item: Item): seq<IrOp> {
    (if item.tag.Some? then [Label(item.tag.value)] else [])
    + ((if item.source.Some? then [Source6502(item.source.value)] else []) + [item.op])
  }

  function Expand(items: seq<Item>): seq<IrOp> {
    if items == [] then [] else ItemOps(items[0]) + Expand(items[1..])
  }

  function Place(items: seq<Item>, k: nat): nat
    requires k <= |items|
  {
    if k == 0 then 0 else Place(items, k - 1) + Width(items[k - 1].op)
  }

  ghost predicate Emits(items: seq<Item>) {
    forall k :: 0 <= k < |items| ==> !items[k].op.Label?
  }

  ghost predicate Named(items: seq<Item>, k: nat, name: string) {
    k < |items| && items[k].tag == Some(name)
  }

  ghost predicate NamesDiffer(items: seq<Item>) {
    forall j, k, name :: Named(items, j, name) && Named(items, k, name) ==> j == k
  }

  function Defined(item: Item, at: nat, known: map<string, Address>): map<string, Address> {
    if item.tag.Some? then known[item.tag.value := at % 0x1_0000] else known
  }

  lemma FirstLabel(op: IrOp, rest: seq<IrOp>, at: nat, known: map<string, Address>)
    ensures Labels([op] + rest, at, known) == Labels(rest, at + Width(op), if op.Label? then known[op.name := at % 0x1_0000] else known)
  {
    assert ([op] + rest)[1..] == rest;
  }

  lemma FirstCode(op: IrOp, rest: seq<IrOp>, labels: map<string, Address>)
    ensures Resolves([op] + rest, labels) <==> (Names(op) ==> op.name in labels) && Resolves(rest, labels)
    ensures Resolves([op] + rest, labels) ==> Assemble([op] + rest, labels) == Encode(op, labels) + Assemble(rest, labels)
  {
    assert ([op] + rest)[1..] == rest;
    ResolvesTail([op] + rest, labels);
  }

  /** The operations of an item from its note on, then `rest`. */
  function FromNote(item: Item, rest: seq<IrOp>): seq<IrOp> {
    if item.source.Some? then [Source6502(item.source.value)] + ([item.op] + rest) else [item.op] + rest
  }

  lemma ItemThenRest(item: Item, rest: seq<IrOp>)
    ensures ItemOps(item) + rest == if item.tag.Some? then [Label(item.tag.value)] + FromNote(item, rest) else FromNote(item, rest)
  {
  }

  lemma ItemLabels(item: Item, rest: seq<IrOp>, at: nat, known: map<string, Address>)
    requires !item.op.Label?
    ensures Labels(ItemOps(item) + rest, at, known) == Labels(rest, at + Width(item.op), Defined(item, at, known))
  {
    ItemThenRest(item, rest);
    var known' := Defined(item, at, known);
    FirstLabel(item.op, rest, at, known');
    if item.source.Some? {
      FirstLabel(Source6502(item.source.value), [item.op] + rest, at, known');
    }
    if item.tag.Some? {
      FirstLabel(Label(item.tag.value), FromNote(item, rest), at, known);
    }
  }

  lemma ItemCode(item: Item, rest: seq<IrOp>, labels: map<string, Address>)
    ensures Resolves(ItemOps(item) + rest, labels) <==> (Names(item.op) ==> item.op.name in labels) && Resolves(rest, labels)
    ensures Resolves(ItemOps(item) + rest, labels) ==>
              Assemble(ItemOps(item) + rest, labels) == Encode(item.op, labels) + Assemble(rest, labels)
  {
    ItemThenRest(item, rest);
    FirstCode(item.op, rest, labels);
    if item.source.Some? {
      FirstCode(Source6502(item.source.value), [item.op] + rest, labels);
    }
    if item.tag.Some? {
      FirstCode(Label(item.tag.value), FromNote(item, rest), labels);
    }
  }

  /** First pass: each label falls at its item's place. */
  lemma {:induction false} LabelsFrom(items: seq<Item>, k: nat, known: map<string, Address>)
    requires k <= |items| && Emits(items) && NamesDiffer(items)
    ensures var r := Labels(Expand(items[k..]), Place(items, k), known);
            && (forall j, name :: k <= j && Named(items, j, name) ==> name in r && r[name] == Place(items, j) % 0x1_0000)
            && (forall name :: name in r ==> name in known || exists j :: k <= j && Named(items, j, name))
            && (forall name :: name in known && !(exists j :: k <= j && Named(items, j, name)) ==> name in r && r[name] == known[name])
    decreases |items| - k
  {
    if k < |items| {
      var item := items[k];
      assert items[k..][1..] == items[k + 1..];
      ItemLabels(item, Expand(items[k + 1..]), Place(items, k), known);
      var known' := Defined(item, Place(items, k), known);
      LabelsFrom(items, k + 1, known');
      var r := Labels(Expand(items[k..]), Place(items, k), known);
      assert r == Labels(Expand(items[k + 1..]), Place(items, k + 1), known');
      forall j, name | k <= j && Named(items, j, name)
        ensures name in r && r[name] == Place(items, j) % 0x1_0000
      {
        if j == k {
          assert name in known';
          assert !(exists i :: k + 1 <= i && Named(items, i, name));
        }
      }
      forall name | name in r
        ensures name in known || exists j :: k <= j && Named(items, j, name)
      {
        if name in known' && name !in known {
          assert Named(items, k, name);
        }
      }
      forall name | name in known && !(exists j :: k <= j && Named(items, j, name))
        ensures name in r && r[name] == known[name]
      {
        assert !Named(items, k, name);
      }
    }
  }

  /** Every name maps to its item's place, as a sixteen-bit position, and nothing else is mapped. */
  ghost predicate Matches(items: seq<Item>, r: map<string, Address>) {
    && (forall k, name :: Named(items, k, name) ==> name in r && r[name] == Place(items, k) % 0x1_0000)
    && (forall name :: name in r ==> exists k :: Named(items, k, name))
  }

  lemma LabelsMatch(items: seq<Item>)
    requires Emits(items) && NamesDiffer(items)
    ensures Matches(items, Labels(Expand(items), 0, map[]))
  {
    LabelsFrom(items, 0, map[]);
    assert items[0..] == items;
    var r := Labels(Expand(items), 0, map[]);
    forall name | name in r
      ensures exists k :: Named(items, k, name)
    {
      var k :| 0 <= k && Named(items, k, name);
    }
  }

  ghost predicate NamesResolve(items: seq<Item>, labels: map<string, Address>) {
    forall k :: 0 <= k < |items| && Names(items[k].op) ==> items[k].op.name in labels
  }

  lemma {:induction false} ResolvesItems(items: seq<Item>, labels: map<string, Address>)
    ensures Resolves(Expand(items), labels) <==> NamesResolve(items, labels)
  {
    if items != [] {
      ItemCode(items[0], Expand(items[1..]), labels);
      ResolvesItems(items[1..], labels);
      assert forall i :: 0 <= i < |items[1..]| ==> items[1..][i] == items[i + 1];
      assert forall i :: 0 < i < |items| ==> items[i] == items[1..][i - 1];
    }
  }

  /** Second pass: the code after an item's place is that item's bytes, then the rest. */
  lemma {:induction false} CodeFrom(items: seq<Item>, k: nat, labels: map<string, Address>)
    requires Resolves(Expand(items), labels) && k <= |items|
    ensures Resolves(Expand(items[k..]), labels)
    ensures Place(items, k) <= |Assemble(Expand(items), labels)|
    ensures Assemble(Expand(items), labels)[Place(items, k)..] == Assemble(Expand(items[k..]), labels)
  {
    var code := Assemble(Expand(items), labels);
    if k == 0 {
      assert items[0..] == items;
      assert code[0..] == code;
    } else {
      CodeFrom(items, k - 1, labels);
      assert items[k - 1..][1..] == items[k..];
      ItemCode(items[k - 1], Expand(items[k..]), labels);
      var first := Encode(items[k - 1].op, labels);
      DropDrop(code, Place(items, k - 1), first, Assemble(Expand(items[k..]), labels));
    }
  }

  lemma DropDrop<T>(code: seq<T>, at: nat, first: seq<T>, rest: seq<T>)
    requires at <= |code| && code[at..] == first + rest
    ensures at + |first| <= |code| && code[at + |first|..] == rest
  {
    assert |code| == at + |first| + |rest|;
    assert code[at..][|first|..] == code[at + |first|..];
  }

  lemma ItemBytes(items: seq<Item>, k: nat, labels: map<string, Address>)
    requires Resolves(Expand(items), labels) && k < |items|
    ensures Names(items[k].op) ==> items[k].op.name in labels
    ensures Place(items, k + 1) <= |Assemble(Expand(items), labels)|
    ensures Assemble(Expand(items), labels)[Place(items, k)..Place(items, k + 1)] == Encode(items[k].op, labels)
  {
    CodeFrom(items, k, labels);
    CodeFrom(items, k + 1, labels);
    assert items[k..][1..] == items[k + 1..];
    ItemCode(items[k], Expand(items[k + 1..]), labels);
    var code := Assemble(Expand(items), labels);
    var first := Encode(items[k].op, labels);
    assert code[Place(items, k)..][..|first|] == first;
  }

  lemma ReturnBytes(items: seq<Item>, k: nat, labels: map<string, Address>)
    requires Resolves(Expand(items), labels) && k < |items| && items[k].op.Return?
    ensures Place(items, k) + 1 <= |Assemble(Expand(items), labels)|
    ensures Assemble(Expand(items), labels)[Place(items, k)..Place(items, k) + 1] == [0xC9]
  {
    ItemBytes(items, k, labels);
  }

  lemma CodeEnds(items: seq<Item>, labels: map<string, Address>)
    requires Resolves(Expand(items), labels)
    ensures |Assemble(Expand(items), labels)| == Place(items, |items|)
  {
    CodeFrom(items, |items|, labels);
    assert items[|items|..] == [];
  }

  lemma PlaceMonotone(items: seq<Item>, j: nat, k: nat)
    requires j <= k <= |items|
    ensures Place(items, j) <= Place(items, k)
    decreases k
  {
    if j < k {
      PlaceMonotone(items, j, k - 1);
    }
  }

  // ----- the fragment's items -----

  datatype Fragment = Fragment(
    bytes: seq<Byte>, start: Address, entry: string, ds: seq<Decoded>, labelled: set<Address>, exits: seq<Address>)
  {
    function End(): int {
      start + |bytes|
    }

    function InstructionItem(k: nat): Item
      requires k < |ds|
    {
      Item(if ds[k].pc in labelled then Some(NameOf(ds[k].pc, start, entry)) else None, Some(ds[k].pc), LiftOp(ds[k].op))
    }

    function StubItem(j: nat): Item
      requires j < |exits|
    {
      Item(Some(AutoLabel(exits[j])), None, Return)
    }

    function Items(): (r: seq<Item>)
      ensures |r| == |ds| + |exits|
      ensures forall k {:trigger r[k]} :: 0 <= k < |r| ==> r[k] == if k < |ds| then InstructionItem(k) else StubItem(k - |ds|)
    {
      seq(|ds|, k requires 0 <= k < |ds| => InstructionItem(k)) + seq(|exits|, j requires 0 <= j < |exits| => StubItem(j))
    }

    function Ops(): seq<IrOp> {
      Body(ds, labelled, start, entry) + Stubs(exits)
    }

    function LabelMap(): map<string, Address> {
      Labels(Ops(), 0, map[])
    }

    /** The entry name is not the automatic label of another address. */
    ghost predicate EntryIsFresh() {
      forall a: Address :: AutoLabel(a) == entry ==> a == start
    }
  }

  lemma {:induction false} ExpandAppend(a: seq<Item>, b: seq<Item>)
    ensures Expand(a + b) == Expand(a) + Expand(b)
  {
    if a == [] {
      assert [] + b == b;
    } else {
      assert (a + b)[1..] == a[1..] + b;
      ExpandAppend(a[1..], b);
    }
  }

  lemma {:induction false} ExpandBody(f: Fragment, k: nat)
    requires k <= |f.ds|
    ensures Expand(seq(|f.ds|, i requires 0 <= i < |f.ds| => f.InstructionItem(i))[k..]) == Body(f.ds[k..], f.labelled, f.start, f.entry)
    decreases |f.ds| - k
  {
    if k < |f.ds| {
      var all := seq(|f.ds|, i requires 0 <= i < |f.ds| => f.InstructionItem(i));
      ExpandBody(f, k + 1);
      assert all[k..][1..] == all[k + 1..];
      assert f.ds[k..][1..] == f.ds[k + 1..];
    }
  }

  lemma {:induction false} ExpandStubs(f: Fragment, k: nat)
    requires k <= |f.exits|
    ensures Expand(seq(|f.exits|, i requires 0 <= i < |f.exits| => f.StubItem(i))[k..]) == Stubs(f.exits[k..])
    decreases |f.exits| - k
  {
    if k < |f.exits| {
      var all := seq(|f.exits|, i requires 0 <= i < |f.exits| => f.StubItem(i));
      ExpandStubs(f, k + 1);
      assert all[k..][1..] == all[k + 1..];
      assert f.exits[k..][1..] == f.exits[k + 1..];
    }
  }

  lemma OpsAreItems(f: Fragment)
    ensures f.Ops() == Expand(f.Items())
  {
    var body := seq(|f.ds|, k requires 0 <= k < |f.ds| => f.InstructionItem(k));
    var stubs := seq(|f.exits|, j requires 0 <= j < |f.exits| => f.StubItem(j));
    ExpandAppend(body, stubs);
    ExpandBody(f, 0);
    ExpandStubs(f, 0);
    assert body[0..] == body && stubs[0..] == stubs && f.ds[0..] == f.ds && f.exits[0..] == f.exits;
  }
}
