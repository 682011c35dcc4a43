/** The members of a finite set of addresses in ascending order. */
module AscendingOrder {
  import opened Bytes

  function Ascending(s: set<Address>, lo: nat): seq<Address>
    requires lo <= 0x1_0000
    decreases 0x1_0000 - lo, |s|
  {
    if lo == 0x1_0000 then [] else (if lo in s then [lo] else []) + Ascending(s, lo + 1)
  }

  ghost predicate Increasing(r: seq<Address>) {
    forall i, j :: 0 <= i < j < |r| ==> r[i] < r[j]
  }

  ghost predicate Lists(r: seq<Address>, s: set<Address>) {
    Increasing(r) && (forall t :: t in r <==> t in s)
  }

  lemma {:induction false} AscendingFrom(s: set<Address>, lo: nat)
    requires lo <= 0x1_0000
    ensures Increasing(Ascending(s, lo))
    ensures forall t :: t in Ascending(s, lo) <==> t in s && lo <= t
    decreases 0x1_0000 - lo
  {
    if lo < 0x1_0000 {
      AscendingFrom(s, lo + 1);
      var rest := Ascending(s, lo + 1);
      assert forall j :: 0 <= j < |rest| ==> rest[j] in rest;
    }
  }

  lemma AscendingLists(s: set<Address>)
    ensures Lists(Ascending(s, 0), s)
  {
    AscendingFrom(s, 0);
  }

  lemma {:induction false} ListSize(r: seq<Address>, s: set<Address>)
    requires Lists(r, s)
    ensures |r| == |s|
  {
    if r != [] {
      var n := |r| - 1;
      var shorter := s - {r[n]};
      assert r == r[..n] + [r[n]];
      assert forall t :: t in r[..n] <==> t in shorter;
      ListSize(r[..n], shorter);
    }
  }
}
