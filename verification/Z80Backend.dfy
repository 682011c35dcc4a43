/**
 The proof-of-concept Z80 assembler: bytes, labels and two-byte holes that `finish`
 fills with label positions. Listing text is not modelled.
 */
module Z80Backend {
  import opened Bytes

  datatype Patch = Patch(offset: nat, name: string)

  datatype Asm = Asm(bytes: seq<Byte>, labels: map<string, Address>, patches: seq<Patch>)
  {
    /** `len() as u16`. */
    function Position(): Address {
      |bytes| % 0x1_0000
    }

    function Emit(more: seq<Byte>): Asm {
      this.(bytes := bytes + more)
    }

    function Define(name: string): Asm {
      this.(labels := labels[name := Position()])
    }

    /** An opcode followed by a hole for the label's position. */
    function EmitHole(opcode: Byte, name: string): Asm {
      Asm(bytes + [opcode, 0, 0], labels, patches + [Patch(|bytes| + 1, name)])
    }

    /** Holes lie inside the program and do not overlap. */
    ghost predicate Valid() {
      && (forall i :: 0 <= i < |patches| ==> patches[i].offset + 2 <= |bytes|)
      && (forall i, j :: 0 <= i < j < |patches| ==> patches[i].offset + 2 <= patches[j].offset)
    }

    predicate Resolved() {
      forall i :: 0 <= i < |patches| ==> patches[i].name in labels
    }
  }

  const EMPTY := Asm([], map[], [])

  function FillHole(bytes: seq<Byte>, at: nat, value: Address): (r: seq<Byte>)
    requires at + 2 <= |bytes|
    ensures |r| == |bytes|
  {
    bytes[at := Low(value)][at + 1 := High(value)]
  }

  ghost predicate Fillable(bytes: seq<Byte>, patches: seq<Patch>, labels: map<string, Address>) {
    forall i :: 0 <= i < |patches| ==> patches[i].offset + 2 <= |bytes| && patches[i].name in labels
  }

  /** The holes filled in patch order. */
  ghost function Fill(bytes: seq<Byte>, patches: seq<Patch>, labels: map<string, Address>): (r: seq<Byte>)
    requires Fillable(bytes, patches, labels)
    ensures |r| == |bytes|
  {
    if patches == [] then bytes
    else
      var n := |patches| - 1;
      FillHole(Fill(bytes, patches[..n], labels), patches[n].offset, labels[patches[n].name])
  }

  ghost predicate HoleHolds(code: seq<Byte>, p: Patch, labels: map<string, Address>) {
    && p.offset + 2 <= |code| && p.name in labels
    && [code[p.offset], code[p.offset + 1]] == [Low(labels[p.name]), High(labels[p.name])]
  }

  predicate InHole(patches: seq<Patch>, b: nat) {
    exists i :: 0 <= i < |patches| && patches[i].offset <= b < patches[i].offset + 2
  }

  /** Filling writes each label's position into its hole, little-endian. */
  lemma {:induction false} FilledHole(bytes: seq<Byte>, patches: seq<Patch>, labels: map<string, Address>, i: nat)
    requires Fillable(bytes, patches, labels) && i < |patches|
    requires forall j, k :: 0 <= j < k < |patches| ==> patches[j].offset + 2 <= patches[k].offset
    ensures HoleHolds(Fill(bytes, patches, labels), patches[i], labels)
    decreases |patches|
  {
    var n := |patches| - 1;
    if i < n {
      assert patches[i].offset + 2 <= patches[n].offset;
      FilledHole(bytes, patches[..n], labels, i);
    }
  }

  /** Filling changes no byte outside the holes. */
  lemma {:induction false} FilledElsewhere(bytes: seq<Byte>, patches: seq<Patch>, labels: map<string, Address>, b: nat)
    requires Fillable(bytes, patches, labels) && b < |bytes| && !InHole(patches, b)
    ensures Fill(bytes, patches, labels)[b] == bytes[b]
    decreases |patches|
  {
    if patches != [] {
      var n := |patches| - 1;
      assert !(patches[n].offset <= b < patches[n].offset + 2);
      assert forall i :: 0 <= i < n ==> patches[..n][i] == patches[i];
      FilledElsewhere(bytes, patches[..n], labels, b);
    }
  }

  /** The program under construction. */
  class Z80Program {
    var bytes: seq<Byte>
    var labels: map<string, Address>
    var patches: seq<Patch>

    ghost function State(): Asm
      reads this
    {
      Asm(bytes, labels, patches)
    }

    constructor ()
      ensures State() == EMPTY
    {
      bytes, labels, patches := [], map[], [];
    }

    method Label(name: string)
      modifies this`labels
      ensures State() == old(State()).Define(name)
    {
      labels := labels[name := |bytes| % 0x1_0000];
    }

    method EmitByte(value: Byte)
      modifies this`bytes
      ensures State() == old(State()).Emit([value])
    {
      bytes := bytes + [value];
    }

    method EmitWord(value: Address)
      modifies this`bytes
      ensures State() == old(State()).Emit([Low(value), High(value)])
    {
      bytes := bytes + [Low(value), High(value)];
    }

    /** Reserves a two-byte hole and returns its offset. */
    method WordPatch() returns (offset: nat)
      modifies this`bytes
      ensures offset == |old(bytes)| && State() == old(State()).Emit([0, 0])
    {
      offset := |bytes|;
      EmitWord(0);
    }

    method WithByte(opcode: Byte, value: Byte)
      modifies this`bytes
      ensures State() == old(State()).Emit([opcode, value])
    {
      EmitByte(opcode);
      EmitByte(value);
    }

    method WithWord(opcode: Byte, value: Address)
      modifies this`bytes
      ensures State() == old(State()).Emit([opcode, Low(value), High(value)])
    {
      EmitByte(opcode);
      EmitWord(value);
    }

    /** `jp cond,label` and its relatives. */
    method WithLabel(opcode: Byte, name: string)
      modifies this`bytes, this`patches
      ensures State() == old(State()).EmitHole(opcode, name)
    {
      EmitByte(opcode);
      var offset := WordPatch();
      patches := patches + [Patch(offset, name)];
    }

    /** Fills every hole; fails exactly when some hole names an undefined label. */
    method Finish() returns (r: Option<seq<Byte>>)
      requires State().Valid()
      modifies this`bytes
      ensures r.Some? <==> old(State()).Resolved()
      ensures r.Some? ==> r.value == Fill(old(bytes), old(patches), old(labels))
    {
      var n := 0;
      while n < |patches|
        invariant 0 <= n <= |patches| && |bytes| == |old(bytes)|
        invariant Fillable(old(bytes), patches[..n], labels)
        invariant bytes == Fill(old(bytes), patches[..n], labels)
      {
        var p := patches[n];
        if p.name !in labels {
          return None;
        }
        assert patches[..n + 1][..n] == patches[..n];
        var value := labels[p.name];
        bytes := bytes[p.offset := Low(value)];
        bytes := bytes[p.offset + 1 := High(value)];
        n := n + 1;
      }
      assert patches[..n] == patches;
      r := Some(bytes);
    }
  }
}
