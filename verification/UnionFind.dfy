/**
 The edge placer's disjoint sets: path-halving find, and size-capped merging along
 edges in the order given.
 */
module UnionFind {

  /** Bytes in one translated section. */
  const CAPACITY := 0x4000

  /** A forest over `root`'s indices: parents climb in `rank` and end at the class's root. */
  ghost predicate Forest(parent: seq<nat>, root: seq<nat>, rank: seq<nat>, top: nat) {
    && |parent| == |root| == |rank|
    && forall x :: 0 <= x < |parent| ==> Node(parent, root, rank, top, x)
  }

  ghost predicate Node(parent: seq<nat>, root: seq<nat>, rank: seq<nat>, top: nat, x: nat)
    requires x < |parent| == |root| == |rank|
  {
    && parent[x] < |parent| && root[x] < |parent|
    && root[parent[x]] == root[x]
    && parent[root[x]] == root[x] && root[root[x]] == root[x]
    && (parent[x] == x ==> root[x] == x)
    && (parent[x] != x ==> rank[x] < rank[parent[x]])
    && rank[x] <= top
  }

  /** Returns the root of `x`'s class; halving the path leaves every class as it was. */
  method Find(parent: array<nat>, start: nat, ghost root: seq<nat>, ghost rank: seq<nat>, ghost top: nat) returns (x: nat)
    requires Forest(parent[..], root, rank, top) && start < parent.Length
    modifies parent
    ensures Forest(parent[..], root, rank, top)
    ensures x == root[start]
  {
    x := start;
    assert Node(parent[..], root, rank, top, x);
    while parent[x] != x
      invariant x < parent.Length && root[x] == root[start]
      invariant Forest(parent[..], root, rank, top)
      invariant Node(parent[..], root, rank, top, x)
      decreases top - rank[x]
    {
      ghost var before := parent[..];
      assert Node(before, root, rank, top, parent[x]);
      parent[x] := parent[parent[x]];
      HalvedForest(before, root, rank, top, x);
      assert parent[..] == before[x := before[before[x]]];
      x := parent[x];
      assert Node(parent[..], root, rank, top, x);
    }
  }

  lemma HalvedForest(parent: seq<nat>, root: seq<nat>, rank: seq<nat>, top: nat, x: nat)
    requires Forest(parent, root, rank, top) && x < |parent| && parent[x] != x
    ensures parent[x] < |parent| && Forest(parent[x := parent[parent[x]]], root, rank, top)
  {
    assert Node(parent, root, rank, top, x) && Node(parent, root, rank, top, parent[x]);
    var halved := parent[x := parent[parent[x]]];
    forall y | 0 <= y < |halved|
      ensures Node(halved, root, rank, top, y)
    {
      assert Node(parent, root, rank, top, y);
      assert Node(parent, root, rank, top, root[y]);
    }
  }

  // ----- classes and their sizes -----

  /** The estimates of the first `n` members of class `r`, added up. */
  function ClassSize(est: seq<nat>, root: seq<nat>, r: nat, n: nat): nat
    requires n <= |est| == |root|
  {
    if n == 0 then 0 else ClassSize(est, root, r, n - 1) + if root[n - 1] == r then est[n - 1] else 0
  }

  /** Class `s` joins class `r`. */
  function Joined(root: seq<nat>, r: nat, s: nat): seq<nat> {
    seq(|root|, x requires 0 <= x < |root| => if root[x] == s then r else root[x])
  }

  lemma {:induction false} JoinedSize(est: seq<nat>, root: seq<nat>, r: nat, s: nat, c: nat, n: nat)
    requires n <= |est| == |root| && r != s
    ensures ClassSize(est, Joined(root, r, s), c, n)
            == if c == r then ClassSize(est, root, r, n) + ClassSize(est, root, s, n)
               else if c == s then 0 else ClassSize(est, root, c, n)
  {
    if n > 0 {
      JoinedSize(est, root, r, s, c, n - 1);
    }
  }

  ghost predicate Sized(est: seq<nat>, root: seq<nat>, csize: seq<nat>) {
    && |est| == |root| == |csize|
    && forall r :: 0 <= r < |root| && root[r] == r ==> csize[r] == ClassSize(est, root, r, |est|)
  }

  /** A class with more than one member fits a section. */
  ghost predicate Fits(est: seq<nat>, root: seq<nat>)
    requires |est| == |root|
  {
    forall x, y :: 0 <= x < y < |root| && root[x] == root[y] ==> ClassSize(est, root, root[x], |est|) <= CAPACITY
  }

  datatype Edge = Edge(i: nat, j: nat)

  /** The edge's ends are together, or their classes are too big to share a section. */
  ghost predicate Settled(est: seq<nat>, root: seq<nat>, e: Edge)
    requires |est| == |root| && e.i < |root| && e.j < |root|
  {
    || root[e.i] == root[e.j]
    || ClassSize(est, root, root[e.i], |est|) + ClassSize(est, root, root[e.j], |est|) > CAPACITY
  }

  ghost predicate Respects(colour: seq<nat>, edges: seq<Edge>, n: nat) {
    && |colour| == n
    && forall k :: 0 <= k < |edges| && edges[k].i < n && edges[k].j < n ==> colour[edges[k].i] == colour[edges[k].j]
  }

  /** Only members connected by edges share a class: any colouring that is constant along edges is constant on classes. */
  ghost predicate Connected(root: seq<nat>, edges: seq<Edge>) {
    forall colour: seq<nat> :: Respects(colour, edges, |root|) ==> ConstantOn(colour, root)
  }

  ghost predicate ConstantOn(colour: seq<nat>, root: seq<nat>)
    requires |colour| == |root|
  {
    forall x, y :: 0 <= x < |root| && 0 <= y < |root| && root[x] == root[y] ==> colour[x] == colour[y]
  }

  lemma JoinedForest(parent: seq<nat>, root: seq<nat>, rank: seq<nat>, top: nat, r: nat, s: nat) returns (rank': seq<nat>)
    requires Forest(parent, root, rank, top) && r < |root| && s < |root| && r != s && root[r] == r && root[s] == s
    ensures Forest(parent[s := r], Joined(root, r, s), rank', top + 1)
  {
    rank' := if rank[r] <= rank[s] then rank[r := rank[s] + 1] else rank;
    assert Node(parent, root, rank, top, r) && Node(parent, root, rank, top, s);
    var parent', root', top' := parent[s := r], Joined(root, r, s), top + 1;
    forall x | 0 <= x < |parent|
      ensures Node(parent', root', rank', top', x)
    {
      assert Node(parent, root, rank, top, x);
      assert Node(parent, root, rank, top, parent[x]);
    }
  }

  lemma JoinedConnected(root: seq<nat>, edges: seq<Edge>, e: Edge, r: nat, s: nat)
    requires Connected(root, edges) && e.i < |root| && e.j < |root| && root[e.i] == r && root[e.j] == s
    ensures Connected(Joined(root, r, s), edges + [e])
  {
    forall colour: seq<nat> | Respects(colour, edges + [e], |root|)
      ensures ConstantOn(colour, Joined(root, r, s))
    {
      var all := edges + [e];
      assert all[|edges|] == e;
      assert forall k :: 0 <= k < |edges| ==> all[k] == edges[k];
      assert Respects(colour, edges, |root|);
    }
  }

  lemma MoreConnected(root: seq<nat>, edges: seq<Edge>, e: Edge)
    requires Connected(root, edges)
    ensures Connected(root, edges + [e])
  {
    forall colour: seq<nat> | Respects(colour, edges + [e], |root|)
      ensures ConstantOn(colour, root)
    {
      var all := edges + [e];
      assert forall k :: 0 <= k < |edges| ==> all[k] == edges[k];
      assert Respects(colour, edges, |root|);
    }
  }

  lemma JoinedFits(est: seq<nat>, root: seq<nat>, r: nat, s: nat)
    requires |est| == |root| && Fits(est, root) && r != s
    requires ClassSize(est, root, r, |est|) + ClassSize(est, root, s, |est|) <= CAPACITY
    ensures Fits(est, Joined(root, r, s))
  {
    var root' := Joined(root, r, s);
    forall x, y | 0 <= x < y < |root'| && root'[x] == root'[y]
      ensures ClassSize(est, root', root'[x], |est|) <= CAPACITY
    {
      JoinedSize(est, root, r, s, root'[x], |est|);
      if root'[x] == s {
        assert false;
      }
    }
  }

  /** Joining classes never makes a refused merge possible again. */
  lemma JoinedSettled(est: seq<nat>, root: seq<nat>, r: nat, s: nat, e: Edge)
    requires |est| == |root| && r != s && e.i < |root| && e.j < |root| && Settled(est, root, e)
    ensures Settled(est, Joined(root, r, s), e)
  {
    var root' := Joined(root, r, s);
    JoinedSize(est, root, r, s, root'[e.i], |est|);
    JoinedSize(est, root, r, s, root'[e.j], |est|);
  }

  lemma JoinedSized(est: seq<nat>, root: seq<nat>, csize: seq<nat>, r: nat, s: nat)
    requires Sized(est, root, csize) && r < |root| && s < |root| && r != s && root[r] == r && root[s] == s
    ensures Sized(est, Joined(root, r, s), csize[r := csize[r] + csize[s]])
  {
    var root' := Joined(root, r, s);
    forall c | 0 <= c < |root'| && root'[c] == c
      ensures csize[r := csize[r] + csize[s]][c] == ClassSize(est, root', c, |est|)
    {
      JoinedSize(est, root, r, s, c, |est|);
    }
  }
}
