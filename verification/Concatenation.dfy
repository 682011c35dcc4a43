/** Flattening a list of blocks, and where each block ends up. */
module Concatenation {

  function Concat<T>(blocks: seq<seq<T>>): seq<T> {
    if blocks == [] then [] else blocks[0] + Concat(blocks[1..])
  }

  function Offset<T>(blocks: seq<seq<T>>, k: nat): nat
    requires k <= |blocks|
  {
    if k == 0 then 0 else |blocks[0]| + Offset(blocks[1..], k - 1)
  }

  lemma {:induction false} BlockAt<T>(blocks: seq<seq<T>>, k: nat)
    requires k < |blocks|
    ensures var at := Offset(blocks, k);
            && at + |blocks[k]| <= |Concat(blocks)|
            && Concat(blocks)[at..at + |blocks[k]|] == blocks[k]
            && Offset(blocks, k + 1) == at + |blocks[k]|
  {
    if k == 0 {
      assert Concat(blocks)[..|blocks[0]|] == blocks[0];
    } else {
      BlockAt(blocks[1..], k - 1);
      var rest := Concat(blocks[1..]);
      var at := Offset(blocks[1..], k - 1);
      assert Concat(blocks)[|blocks[0]| + at..|blocks[0]| + at + |blocks[k]|] == rest[at..at + |blocks[k]|];
    }
  }

  lemma {:induction false} OffsetEnd<T>(blocks: seq<seq<T>>)
    ensures Offset(blocks, |blocks|) == |Concat(blocks)|
  {
    if blocks != [] {
      OffsetEnd(blocks[1..]);
    }
  }

  /** Every element of the concatenation belongs to one block. */
  lemma {:induction false} Locate<T>(blocks: seq<seq<T>>, i: nat) returns (k: nat, d: nat)
    requires i < |Concat(blocks)|
    ensures k < |blocks| && d < |blocks[k]|
    ensures i == Offset(blocks, k) + d && Concat(blocks)[i] == blocks[k][d]
  {
    if i < |blocks[0]| {
      k, d := 0, i;
    } else {
      k, d := Locate(blocks[1..], i - |blocks[0]|);
      k := k + 1;
    }
  }

  lemma {:induction false} ConcatAppend<T>(blocks: seq<seq<T>>, last: seq<T>)
    ensures Concat(blocks + [last]) == Concat(blocks) + last
  {
    if blocks == [] {
      assert blocks + [last] == [last];
      assert Concat([last]) == last + Concat<T>([]);
    } else {
      assert (blocks + [last])[1..] == blocks[1..] + [last];
      ConcatAppend(blocks[1..], last);
    }
  }

  lemma ShiftSlice<T>(first: T, rest: seq<T>, lo: nat, hi: nat)
    requires lo <= hi <= |rest|
    ensures ([first] + rest)[1 + lo..1 + hi] == rest[lo..hi]
  {
  }

  /** The block is what `all` holds at position `at`. */
  predicate Stands<T(==)>(all: seq<T>, at: nat, block: seq<T>) {
    at + |block| <= |all| && all[at..at + |block|] == block
  }

  /** Where a block stands behind one leading element. */
  lemma BlockAfter<T>(all: seq<T>, first: T, blocks: seq<seq<T>>, k: nat)
    requires k < |blocks| && all == [first] + Concat(blocks)
    ensures Stands(all, 1 + Offset(blocks, k), blocks[k])
    ensures 1 + Offset(blocks, k + 1) == 1 + Offset(blocks, k) + |blocks[k]|
  {
    BlockAt(blocks, k);
    ShiftSlice(first, Concat(blocks), Offset(blocks, k), Offset(blocks, k) + |blocks[k]|);
  }

  lemma FirstAfter<T>(all: seq<T>, first: T, blocks: seq<seq<T>>, k: nat)
    requires k < |blocks| && blocks[k] != [] && all == [first] + Concat(blocks)
    ensures 1 + Offset(blocks, k) < |all|
    ensures all[1 + Offset(blocks, k)] == blocks[k][0]
  {
    BlockAfter(all, first, blocks, k);
    assert all[1 + Offset(blocks, k)..1 + Offset(blocks, k) + |blocks[k]|][0] == all[1 + Offset(blocks, k)];
  }
}
