/**
 Placing routines by measured edges: size-capped clusters, ordered by their first
 member and by original position inside. Edges come in the order they are tried;
 reading the profile text is not modelled.
 */
module EdgePlacer {
  import opened Bytes
  import opened UnionFind

  ghost predicate EdgesIn(edges: seq<Edge>, n: nat) {
    forall k :: 0 <= k < |edges| ==> edges[k].i < n && edges[k].j < n
  }

  ghost predicate AllSettled(est: seq<nat>, root: seq<nat>, edges: seq<Edge>)
    requires |est| == |root| && EdgesIn(edges, |root|)
  {
    forall k :: 0 <= k < |edges| ==> UnionFind.Settled(est, root, edges[k])
  }

  /** What the merge loop guarantees about the classes. */
  ghost predicate Clustered(est: seq<nat>, root: seq<nat>, edges: seq<Edge>) {
    && |est| == |root| && EdgesIn(edges, |root|)
    && Fits(est, root) && Connected(root, edges) && AllSettled(est, root, edges)
  }

  lemma StartClustered(est: seq<nat>, root: seq<nat>)
    requires |root| == |est| && Unmerged(root)
    ensures Clustered(est, root, [])
  {
  }

  lemma {:induction false} AloneSize(est: seq<nat>, root: seq<nat>, r: nat, n: nat)
    requires n <= |est| == |root| && forall x :: 0 <= x < |root| ==> root[x] == x
    ensures ClassSize(est, root, r, n) == if r < n then est[r] else 0
  {
    if n > 0 {
      AloneSize(est, root, r, n - 1);
    }
  }

  lemma MergedClustered(est: seq<nat>, root: seq<nat>, edges: seq<Edge>, e: Edge)
    requires Clustered(est, root, edges) && e.i < |root| && e.j < |root| && root[e.i] != root[e.j]
    requires ClassSize(est, root, root[e.i], |est|) + ClassSize(est, root, root[e.j], |est|) <= CAPACITY
    ensures Clustered(est, Joined(root, root[e.i], root[e.j]), edges + [e])
  {
    var r, s := root[e.i], root[e.j];
    var root' := Joined(root, r, s);
    JoinedFits(est, root, r, s);
    JoinedConnected(root, edges, e, r, s);
    forall k | 0 <= k < |edges + [e]|
      ensures UnionFind.Settled(est, root', (edges + [e])[k])
    {
      if k < |edges| {
        JoinedSettled(est, root, r, s, edges[k]);
      }
    }
  }

  lemma RefusedClustered(est: seq<nat>, root: seq<nat>, edges: seq<Edge>, e: Edge)
    requires Clustered(est, root, edges) && e.i < |root| && e.j < |root| && UnionFind.Settled(est, root, e)
    ensures Clustered(est, root, edges + [e])
  {
    MoreConnected(root, edges, e);
  }

  /** Tries one edge. */
  method Merge(parent: array<nat>, csize: array<nat>, e: Edge, ghost est: seq<nat>, ghost root: seq<nat>, ghost rank: seq<nat>, ghost top: nat)
    returns (merged: bool, ghost root': seq<nat>, ghost rank': seq<nat>, ghost top': nat)
    requires parent != csize && Forest(parent[..], root, rank, top) && Sized(est, root, csize[..])
    requires e.i < parent.Length && e.j < parent.Length
    modifies parent, csize
    ensures Forest(parent[..], root', rank', top') && Sized(est, root', csize[..])
    ensures merged <==> root[e.i] != root[e.j]
                        && ClassSize(est, root, root[e.i], |est|) + ClassSize(est, root, root[e.j], |est|) <= CAPACITY
    ensures root' == if merged then Joined(root, root[e.i], root[e.j]) else root
  {
    root', rank', top', merged := root, rank, top, false;
    var ri := Find(parent, e.i, root, rank, top);
    var rj := Find(parent, e.j, root, rank, top);
    assert Node(parent[..], root, rank, top, e.i) && Node(parent[..], root, rank, top, e.j);
    if ri != rj && csize[ri] + csize[rj] <= CAPACITY {
      rank' := JoinedForest(parent[..], root, rank, top, ri, rj);
      JoinedSized(est, root, csize[..], ri, rj);
      root', top', merged := Joined(root, ri, rj), top + 1, true;
      ghost var p, c := parent[..], csize[..];
      parent[rj] := ri;
      csize[ri] := csize[ri] + csize[rj];
      assert parent[..] == p[rj := ri] && csize[..] == c[ri := c[ri] + c[rj]];
    }
  }

  lemma TriedClustered(est: seq<nat>, root: seq<nat>, edges: seq<Edge>, e: Edge, merged: bool, root': seq<nat>)
    requires Clustered(est, root, edges) && e.i < |root| && e.j < |root|
    requires merged <==> root[e.i] != root[e.j]
                         && ClassSize(est, root, root[e.i], |est|) + ClassSize(est, root, root[e.j], |est|) <= CAPACITY
    requires root' == if merged then Joined(root, root[e.i], root[e.j]) else root
    ensures Clustered(est, root', edges + [e])
  {
    if merged {
      MergedClustered(est, root, edges, e);
    } else {
      RefusedClustered(est, root, edges, e);
    }
  }

  ghost predicate Unmerged(root: seq<nat>) {
    forall x :: 0 <= x < |root| ==> root[x] == x
  }

  /** Tries the next edge and keeps everything the merge loop promises. */
  method MergeNext(parent: array<nat>, csize: array<nat>, est: seq<nat>, edges: seq<Edge>, k: nat,
                   ghost root: seq<nat>, ghost rank: seq<nat>, ghost top: nat)
    returns (did: bool, ghost root': seq<nat>, ghost rank': seq<nat>, ghost top': nat)
    requires parent != csize && parent.Length == |est| && k < |edges| && edges[k].i < |est| && edges[k].j < |est|
    requires Forest(parent[..], root, rank, top) && Sized(est, root, csize[..]) && Clustered(est, root, edges[..k])
    modifies parent, csize
    ensures Forest(parent[..], root', rank', top') && Sized(est, root', csize[..]) && Clustered(est, root', edges[..k + 1])
    ensures !did ==> root' == root
  {
    did, root', rank', top' := Merge(parent, csize, edges[k], est, root, rank, top);
    TriedClustered(est, root, edges[..k], edges[k], did, root');
    OneMoreEdge(edges, k);
  }

  method MergeAll(parent: array<nat>, csize: array<nat>, est: seq<nat>, edges: seq<Edge>, ghost rank0: seq<nat>)
    returns (merged: nat, ghost root: seq<nat>, ghost rank: seq<nat>, ghost top: nat)
    requires parent != csize && parent.Length == |est| && EdgesIn(edges, |est|)
    requires Unmerged(parent[..]) && Forest(parent[..], parent[..], rank0, 0) && Sized(est, parent[..], csize[..])
    modifies parent, csize
    ensures Forest(parent[..], root, rank, top) && Sized(est, root, csize[..])
    ensures Clustered(est, root, edges)
    ensures merged == 0 ==> Unmerged(root)
  {
    hide Forest, Sized, Clustered, Unmerged;
    root, rank, top, merged := parent[..], rank0, 0, 0;
    StartClustered(est, root);
    var k := 0;
    while k < |edges|
      invariant 0 <= k <= |edges|
      invariant Forest(parent[..], root, rank, top) && Sized(est, root, csize[..])
      invariant Clustered(est, root, edges[..k])
      invariant merged == 0 ==> Unmerged(root)
    {
      var did;
      did, root, rank, top := MergeNext(parent, csize, est, edges, k, root, rank, top);
      merged := if did then merged + 1 else merged;
      k := k + 1;
    }
    assert edges[..k] == edges;
  }

  lemma OneMoreEdge(edges: seq<Edge>, k: nat)
    requires k < |edges|
    ensures edges[..k + 1] == edges[..k] + [edges[k]]
  {
  }

  method ReadClusters(parent: array<nat>, ghost root: seq<nat>, ghost rank: seq<nat>, ghost top: nat) returns (cluster: seq<nat>)
    requires Forest(parent[..], root, rank, top)
    modifies parent
    ensures cluster == root && Forest(parent[..], root, rank, top)
  {
    cluster := [];
    var i := 0;
    while i < parent.Length
      invariant 0 <= i <= parent.Length
      invariant Forest(parent[..], root, rank, top) && cluster == root[..i]
    {
      var c := Find(parent, i, root, rank, top);
      cluster := cluster + [c];
      i := i + 1;
    }
  }

  lemma StartForest(parent: seq<nat>, rank: seq<nat>)
    requires Unmerged(parent) && |rank| == |parent| && forall x :: 0 <= x < |rank| ==> rank[x] == 0
    ensures Forest(parent, parent, rank, 0)
  {
    forall x | 0 <= x < |parent|
      ensures Node(parent, parent, rank, 0, x)
    {
    }
  }

  lemma StartSized(est: seq<nat>, root: seq<nat>)
    requires Unmerged(root) && |root| == |est|
    ensures Sized(est, root, est)
  {
    forall r | 0 <= r < |root| && root[r] == r
      ensures est[r] == ClassSize(est, root, r, |est|)
    {
      AloneSize(est, root, r, |est|);
    }
  }

  /** The clusters of all routines: `cluster[i]` is the root of routine `i`'s class. */
  method BuildClusters(est: seq<nat>, edges: seq<Edge>) returns (cluster: seq<nat>, merged: nat)
    requires EdgesIn(edges, |est|)
    ensures Clustered(est, cluster, edges)
    ensures merged == 0 ==> Unmerged(cluster)
  {
    var n := |est|;
    var parent := new nat[n](i => i);
    var csize := new nat[n](i requires 0 <= i < n => est[i]);
    assert csize[..] == est;
    ghost var rank := seq(n, x => 0);
    StartForest(parent[..], rank);
    StartSized(est, parent[..]);
    ghost var root, top;
    merged, root, rank, top := MergeAll(parent, csize, est, edges, rank);
    cluster := ReadClusters(parent, root, rank, top);
  }

  // ----- the placement order -----

  predicate IsFirst(cluster: seq<nat>, i: nat)
    requires i < |cluster|
  {
    forall j :: 0 <= j < i ==> cluster[j] != cluster[i]
  }

  /** `at[i]` is the first member of routine `i`'s cluster. */
  ghost predicate Anchored(cluster: seq<nat>, at: seq<nat>) {
    && |at| == |cluster|
    && forall i :: 0 <= i < |at| ==> at[i] <= i && cluster[at[i]] == cluster[i] && IsFirst(cluster, at[i])
  }

  method Anchors(cluster: seq<nat>) returns (at: seq<nat>)
    ensures Anchored(cluster, at)
  {
    var anchor: map<nat, nat> := map[];
    at := [];
    for i := 0 to |cluster|
      invariant |at| == i
      invariant forall j :: 0 <= j < i ==> at[j] <= j && cluster[at[j]] == cluster[j] && IsFirst(cluster, at[j])
      invariant forall c :: c in anchor ==> anchor[c] < i && cluster[anchor[c]] == c && IsFirst(cluster, anchor[c])
      invariant forall j :: 0 <= j < i ==> cluster[j] in anchor
    {
      var c := cluster[i];
      if c !in anchor {
        anchor := anchor[c := i];
      }
      at := at + [anchor[c]];
    }
  }

  predicate Before(at: seq<nat>, i: nat, j: nat)
    requires i < |at| && j < |at|
  {
    at[i] < at[j] || (at[i] == at[j] && i < j)
  }

  ghost predicate IsPermutation(order: seq<nat>, n: nat) {
    && |order| == n
    && (forall p :: 0 <= p < n ==> order[p] < n)
    && (forall p, q :: 0 <= p < q < n ==> order[p] != order[q])
  }

  ghost predicate InOrder(at: seq<nat>, order: seq<nat>) {
    && (forall p :: 0 <= p < |order| ==> order[p] < |at|)
    && (forall p, q :: 0 <= p < q < |order| ==> Before(at, order[p], order[q]))
  }

  /** Sorts the routine indices by anchor, then by index. */
  method SortByAnchor(at: seq<nat>) returns (order: seq<nat>)
    ensures IsPermutation(order, |at|) && InOrder(at, order)
  {
    order := [];
    for i := 0 to |at|
      invariant |order| == i && InOrder(at, order)
      invariant forall p :: 0 <= p < i ==> order[p] < i
    {
      var p := i;
      while p > 0 && at[order[p - 1]] > at[i]
        invariant 0 <= p <= i
        invariant forall q :: p <= q < i ==> at[order[q]] > at[i]
      {
        p := p - 1;
      }
      InsertInOrder(at, order, i, p);
      order := order[..p] + [i] + order[p..];
    }
    forall p, q | 0 <= p < q < |at|
      ensures order[p] != order[q]
    {
      assert Before(at, order[p], order[q]);
    }
  }

  lemma InsertInOrder(at: seq<nat>, order: seq<nat>, i: nat, p: nat)
    requires i < |at| && |order| == i && InOrder(at, order) && p <= i
    requires forall q :: 0 <= q < i ==> order[q] < i
    requires p > 0 ==> at[order[p - 1]] <= at[i]
    requires forall q :: p <= q < i ==> at[order[q]] > at[i]
    ensures InOrder(at, order[..p] + [i] + order[p..])
    ensures forall q :: 0 <= q < i + 1 ==> (order[..p] + [i] + order[p..])[q] < i + 1
  {
    var r := order[..p] + [i] + order[p..];
    forall q | 0 <= q < p
      ensures Before(at, order[q], i)
    {
      assert q < p - 1 ==> Before(at, order[q], order[p - 1]);
    }
    forall a, b | 0 <= a < b < |r|
      ensures Before(at, r[a], r[b])
    {
      assert r[a] == if a < p then order[a] else if a == p then i else order[a - 1];
      assert r[b] == if b < p then order[b] else if b == p then i else order[b - 1];
    }
  }

  /** The new positions of the routines; the order is unchanged when nothing merged. */
  method PlaceByEdges(est: seq<nat>, edges: seq<Edge>) returns (order: seq<nat>, ghost cluster: seq<nat>, ghost at: seq<nat>)
    requires EdgesIn(edges, |est|)
    ensures Clustered(est, cluster, edges) && Anchored(cluster, at)
    ensures IsPermutation(order, |est|) && InOrder(at, order)
  {
    var clusters, merged := BuildClusters(est, edges);
    cluster := clusters;
    if merged > 0 {
      var anchors := Anchors(clusters);
      at := anchors;
      order := SortByAnchor(anchors);
    } else {
      order := seq(|est|, i => i);
      at := order;
    }
  }

  /** Takes each routine out of its slot once; no slot is ever empty. */
  method Reorder<T>(routines: seq<T>, order: seq<nat>) returns (r: seq<T>)
    requires IsPermutation(order, |routines|)
    ensures |r| == |routines| && forall p :: 0 <= p < |r| ==> r[p] == routines[order[p]]
  {
    var slots := seq(|routines|, i requires 0 <= i < |routines| => Some(routines[i]));
    r := [];
    for p := 0 to |order|
      invariant |slots| == |routines| && |r| == p
      invariant forall q :: 0 <= q < p ==> r[q] == routines[order[q]]
      invariant forall q :: p <= q < |order| ==> slots[order[q]] == Some(routines[order[q]])
    {
      assert slots[order[p]].Some?;
      r := r + [slots[order[p]].value];
      slots := slots[order[p] := None];
    }
  }

  // ----- what the order means -----

  lemma SameAnchor(cluster: seq<nat>, at: seq<nat>, i: nat, j: nat)
    requires Anchored(cluster, at) && i < |cluster| && j < |cluster|
    ensures at[i] == at[j] <==> cluster[i] == cluster[j]
  {
    assert IsFirst(cluster, at[i]) && IsFirst(cluster, at[j]);
  }

  /** Between two members of a cluster stand only members of it, in their original order. */
  lemma ClustersAreContiguous(cluster: seq<nat>, at: seq<nat>, order: seq<nat>, p: nat, q: nat, r: nat)
    requires Anchored(cluster, at) && InOrder(at, order) && p < q < r < |order|
    requires cluster[order[p]] == cluster[order[r]]
    ensures cluster[order[q]] == cluster[order[p]] && order[p] < order[q] < order[r]
  {
    SameAnchor(cluster, at, order[p], order[r]);
    SameAnchor(cluster, at, order[p], order[q]);
    assert Before(at, order[p], order[q]) && Before(at, order[q], order[r]);
  }

  /** Clusters stand in the order of their first members, and each first member leads its cluster. */
  lemma ClustersByFirstMember(cluster: seq<nat>, at: seq<nat>, order: seq<nat>, p: nat, q: nat)
    requires Anchored(cluster, at) && InOrder(at, order) && p < q < |order|
    ensures at[order[p]] <= at[order[q]]
    ensures cluster[order[p]] != cluster[order[q]] ==> at[order[p]] < at[order[q]]
    ensures cluster[order[p]] == cluster[order[q]] ==> order[p] < order[q]
  {
    SameAnchor(cluster, at, order[p], order[q]);
    assert Before(at, order[p], order[q]);
  }

  /** Routines that share no cluster with an earlier routine keep their original relative order. */
  lemma LeadersKeepOrder(cluster: seq<nat>, at: seq<nat>, order: seq<nat>, p: nat, q: nat)
    requires Anchored(cluster, at) && InOrder(at, order) && p < |order| && q < |order| && p != q
    requires IsFirst(cluster, order[p]) && IsFirst(cluster, order[q]) && order[p] < order[q]
    ensures p < q
  {
    assert at[order[p]] == order[p] && at[order[q]] == order[q];
    assert q < p ==> Before(at, order[q], order[p]);
  }

  function Total(est: seq<nat>, xs: seq<nat>): nat
    requires forall k :: 0 <= k < |xs| ==> xs[k] < |est|
  {
    if xs == [] then 0 else est[xs[0]] + Total(est, xs[1..])
  }

  lemma {:induction false} TotalWithout(est: seq<nat>, xs: seq<nat>, k: nat)
    requires k < |xs| && forall i :: 0 <= i < |xs| ==> xs[i] < |est|
    ensures Total(est, xs) == Total(est, xs[..k] + xs[k + 1..]) + est[xs[k]]
  {
    if k == 0 {
      assert xs[..0] + xs[1..] == xs[1..];
    } else {
      TotalWithout(est, xs[1..], k - 1);
      assert (xs[..k] + xs[k + 1..])[1..] == xs[1..][..k - 1] + xs[1..][k..];
    }
  }

  /** Without its element n - 1, a list of distinct class members below n stays one, below n - 1. */
  lemma OthersBelow(root: seq<nat>, r: nat, xs: seq<nat>, k: nat, n: nat, others: seq<nat>)
    requires n <= |root| && k < |xs| && xs[k] == n - 1 && others == xs[..k] + xs[k + 1..]
    requires forall i :: 0 <= i < |xs| ==> xs[i] < n && root[xs[i]] == r
    requires forall i, j :: 0 <= i < j < |xs| ==> xs[i] != xs[j]
    ensures forall i :: 0 <= i < |others| ==> others[i] < n - 1 && root[others[i]] == r
    ensures forall i, j :: 0 <= i < j < |others| ==> others[i] != others[j]
  {
    assert forall i :: 0 <= i < |others| ==> others[i] == if i < k then xs[i] else xs[i + 1];
  }

  /** Distinct members of a class weigh no more than the class. */
  lemma {:induction false} MembersWithinClass(est: seq<nat>, root: seq<nat>, r: nat, xs: seq<nat>, n: nat)
    requires n <= |est| == |root|
    requires forall i :: 0 <= i < |xs| ==> xs[i] < n && root[xs[i]] == r
    requires forall i, j :: 0 <= i < j < |xs| ==> xs[i] != xs[j]
    ensures Total(est, xs) <= ClassSize(est, root, r, n)
    decreases n
  {
    if n == 0 {
      assert xs == [];
    } else if n - 1 in xs {
      var k :| 0 <= k < |xs| && xs[k] == n - 1;
      var others := xs[..k] + xs[k + 1..];
      TotalWithout(est, xs, k);
      OthersBelow(root, r, xs, k, n, others);
      MembersWithinClass(est, root, r, others, n - 1);
    } else {
      assert forall i :: 0 <= i < |xs| ==> xs[i] in xs;
      MembersWithinClass(est, root, r, xs, n - 1);
    }
  }

  /** Wherever several routines of one cluster stand, the whole stretch between them fits one section. */
  lemma PlacedClusterFits(est: seq<nat>, edges: seq<Edge>, cluster: seq<nat>, at: seq<nat>, order: seq<nat>, p: nat, r: nat)
    requires Clustered(est, cluster, edges) && Anchored(cluster, at)
    requires IsPermutation(order, |est|) && InOrder(at, order) && p < r < |order| && cluster[order[p]] == cluster[order[r]]
    ensures Total(est, order[p..r + 1]) <= CAPACITY
  {
    var xs := order[p..r + 1];
    forall q | p <= q <= r
      ensures cluster[order[q]] == cluster[order[p]]
    {
      if p < q < r { ClustersAreContiguous(cluster, at, order, p, q, r); }
    }
    MembersWithinClass(est, cluster, cluster[order[p]], xs, |est|);
    assert order[p] != order[r];
  }
}
