// The compressed sparse row graph (src/graph/csr.rs): construction from neighbour lists,
// breadth-first search, common neighbours and triangle counting.
module Csr {
  import opened Bytes
  import opened Keyed

  // Node ids by index, and the target ids of node idx at offsets[idx] .. offsets[idx + 1].
  datatype CsrGraph = CsrGraph(idxOf: map<u64, nat>, ids: seq<u64>, offsets: seq<nat>, targets: seq<u64>)

  ghost predicate OffsetsFit(offsets: seq<nat>, n: nat, edges: nat) {
    && |offsets| == n + 1
    && offsets[n] == edges
    && forall i, j :: 0 <= i <= j <= n ==> offsets[i] <= offsets[j] <= edges
  }

  ghost predicate Indexes(idxOf: map<u64, nat>, ids: seq<u64>) {
    && (forall i :: 0 <= i < |ids| ==> ids[i] in idxOf && idxOf[ids[i]] == i)
    && (forall id :: id in idxOf ==> idxOf[id] < |ids| && ids[idxOf[id]] == id)
  }

  ghost predicate Valid(g: CsrGraph) {
    && Indexes(g.idxOf, g.ids)
    && OffsetsFit(g.offsets, |g.ids|, |g.targets|)
    && forall i :: 0 <= i < |g.ids| ==> NotDescending(g.targets[g.offsets[i]..g.offsets[i + 1]])
  }

  // Targets of a node; unknown nodes have none.
  function OutgoingNeighbors(g: CsrGraph, id: u64): (s: seq<u64>)
    requires Valid(g)
    ensures NotDescending(s)
  {
    if id in g.idxOf then
      var idx := g.idxOf[id];
      g.targets[g.offsets[idx]..g.offsets[idx + 1]]
    else []
  }

  // ---- construction ----

  // Neighbour ids sorted as sort_by_key leaves them.
  function InOrder(s: seq<u64>): (r: seq<u64>)
    ensures |r| == |s|
  {
    SortedByKey(s, (x: u64) => x)
  }

  lemma {:induction false} JoinedInOrder(s: seq<u64>, x: u64)
    requires NotDescending(s)
    ensures var r := JoinedStably(s, (y: u64) => y, x);
            NotDescending(r) && multiset(r) == multiset(s) + multiset{x} && forall y :: y in r ==> y == x || y in s
  {
    if s != [] && s[|s| - 1] > x {
      var front, last := s[..|s| - 1], s[|s| - 1];
      JoinedInOrder(front, x);
      FrontAndLast(s);
      var r := JoinedStably(front, (y: u64) => y, x);
      forall i | 0 <= i < |r| ensures r[i] <= last {
        assert r[i] in r;
      }
    }
  }

  lemma {:induction false} InOrderIsSorted(s: seq<u64>)
    ensures NotDescending(InOrder(s)) && multiset(InOrder(s)) == multiset(s)
  {
    if s != [] {
      InOrderIsSorted(s[..|s| - 1]);
      JoinedInOrder(InOrder(s[..|s| - 1]), s[|s| - 1]);
      FrontAndLast(s);
    }
  }

  method IndexNodes(ids: seq<u64>) returns (idxOf: map<u64, nat>)
    requires forall i, j :: 0 <= i < j < |ids| ==> ids[i] != ids[j]
    ensures Indexes(idxOf, ids)
  {
    idxOf := map[];
    for idx := 0 to |ids|
      invariant forall i :: 0 <= i < idx ==> ids[i] in idxOf && idxOf[ids[i]] == i
      invariant forall id :: id in idxOf ==> idxOf[id] < idx && ids[idxOf[id]] == id
    {
      idxOf := idxOf[ids[idx] := idx];
    }
  }

  // The first k rows are the lists of the first k nodes.
  ghost predicate RowsHold(offsets: seq<nat>, targets: seq<u64>, ids: seq<u64>, neighbours: u64 -> seq<u64>, k: nat)
    requires k <= |ids|
  {
    && OffsetsFit(offsets, k, |targets|)
    && forall i :: 0 <= i < k ==> targets[offsets[i]..offsets[i + 1]] == InOrder(neighbours(ids[i]))
  }

  lemma RowAdded(offsets: seq<nat>, targets: seq<u64>, ids: seq<u64>, neighbours: u64 -> seq<u64>, k: nat)
    requires k < |ids| && RowsHold(offsets, targets, ids, neighbours, k)
    ensures var targets' := targets + InOrder(neighbours(ids[k]));
            RowsHold(offsets + [|targets'|], targets', ids, neighbours, k + 1)
  {
    var list := InOrder(neighbours(ids[k]));
    var targets' := targets + list;
    var offsets' := offsets + [|targets'|];
    assert OffsetsFit(offsets', k + 1, |targets'|);
    forall i | 0 <= i < k + 1 ensures targets'[offsets'[i]..offsets'[i + 1]] == InOrder(neighbours(ids[i])) {
      if i < k {
        SliceOfPrefix(targets, list, offsets[i], offsets[i + 1]);
      }
    }
  }

  lemma SliceOfPrefix<T>(a: seq<T>, b: seq<T>, lo: nat, hi: nat)
    requires lo <= hi <= |a|
    ensures (a + b)[lo..hi] == a[lo..hi]
  {
  }

  method LayOutRows(ids: seq<u64>, neighbours: u64 -> seq<u64>) returns (offsets: seq<nat>, targets: seq<u64>)
    ensures RowsHold(offsets, targets, ids, neighbours, |ids|)
  {
    offsets, targets := [0], [];
    var current := 0;
    for k := 0 to |ids|
      invariant RowsHold(offsets, targets, ids, neighbours, k) && current == |targets|
    {
      RowAdded(offsets, targets, ids, neighbours, k);
      var sorted := InOrder(neighbours(ids[k]));
      targets := targets + sorted;
      current := current + |sorted|;
      offsets := offsets + [current];
    }
  }

  // The graph of an engine's nodes and their target lists.
  method FromNeighbours(ids: seq<u64>, neighbours: u64 -> seq<u64>) returns (g: CsrGraph)
    requires forall i, j :: 0 <= i < j < |ids| ==> ids[i] != ids[j]
    ensures Valid(g) && g.ids == ids
    ensures forall id :: multiset(OutgoingNeighbors(g, id)) == if id in ids then multiset(neighbours(id)) else multiset{}
  {
    var idxOf := IndexNodes(ids);
    var offsets, targets := LayOutRows(ids, neighbours);
    g := CsrGraph(idxOf, ids, offsets, targets);
    forall i | 0 <= i < |ids| ensures NotDescending(targets[offsets[i]..offsets[i + 1]]) {
      InOrderIsSorted(neighbours(ids[i]));
    }
    forall id
      ensures multiset(OutgoingNeighbors(g, id)) == if id in ids then multiset(neighbours(id)) else multiset{}
    {
      if id in ids {
        InOrderIsSorted(neighbours(id));
        var i :| 0 <= i < |ids| && ids[i] == id;
      }
    }
  }

  // ---- common neighbours ----

  lemma SharedHead(x: u64, a: multiset<u64>, b: multiset<u64>)
    ensures (multiset{x} + a) * (multiset{x} + b) == multiset{x} + a * b
  {
  }

  lemma LoneHead(x: u64, a: multiset<u64>, b: multiset<u64>)
    requires x !in b
    ensures (multiset{x} + a) * b == a * b
  {
  }

  lemma HeadAndTail(s: seq<u64>, i: nat)
    requires i < |s|
    ensures multiset(s[i..]) == multiset{s[i]} + multiset(s[i + 1..])
  {
    assert s[i..] == [s[i]] + s[i + 1..];
  }

  lemma SmallerIsAbsent(s: seq<u64>, i: nat, x: u64)
    requires NotDescending(s) && i < |s| && x < s[i]
    ensures x !in multiset(s[i..])
  {
    forall k | i <= k < |s| ensures s[k] != x {
      assert i < k ==> s[i] <= s[k];
    }
  }

  // The two-pointer walk computes the size of the intersection, duplicates counted.
  method CommonNeighborsCount(g: CsrGraph, u: u64, v: u64) returns (count: nat)
    requires Valid(g)
    ensures count == |multiset(OutgoingNeighbors(g, u)) * multiset(OutgoingNeighbors(g, v))|
  {
    var a, b := OutgoingNeighbors(g, u), OutgoingNeighbors(g, v);
    var i, j := 0, 0;
    count := 0;
    assert a[0..] == a && b[0..] == b;
    while i < |a| && j < |b|
      invariant 0 <= i <= |a| && 0 <= j <= |b|
      invariant count + |multiset(a[i..]) * multiset(b[j..])| == |multiset(a) * multiset(b)|
      decreases |a| - i + |b| - j
    {
      HeadAndTail(a, i);
      HeadAndTail(b, j);
      if a[i] == b[j] {
        SharedHead(a[i], multiset(a[i + 1..]), multiset(b[j + 1..]));
        count, i, j := count + 1, i + 1, j + 1;
      } else if a[i] < b[j] {
        SmallerIsAbsent(b, j, a[i]);
        LoneHead(a[i], multiset(a[i + 1..]), multiset(b[j..]));
        i := i + 1;
      } else {
        SmallerIsAbsent(a, i, b[j]);
        LoneHead(b[j], multiset(b[j + 1..]), multiset(a[i..]));
        assert multiset(a[i..]) * multiset(b[j..]) == multiset(b[j..]) * multiset(a[i..]);
        assert multiset(a[i..]) * multiset(b[j + 1..]) == multiset(b[j + 1..]) * multiset(a[i..]);
        j := j + 1;
      }
    }
    assert multiset(a[i..]) * multiset(b[j..]) == multiset{};
  }
}
