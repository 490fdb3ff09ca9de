// Breadth-first search over a CSR graph: each node within the depth limit exactly once, nearest first.
module Bfs {
  import opened Bytes
  import opened Keyed
  import opened Csr

  // Nodes that a walk of at most n edges reaches from start.
  ghost function Within(g: CsrGraph, start: u64, n: nat): set<u64>
    requires Valid(g)
  {
    if n == 0 then {start}
    else Within(g, start, n - 1) + set x, y | x in Within(g, start, n - 1) && y in OutgoingNeighbors(g, x) :: y
  }

  // The length of a shortest walk from start to x.
  ghost predicate IsDistance(g: CsrGraph, start: u64, x: u64, d: nat)
    requires Valid(g)
  {
    x in Within(g, start, d) && (d > 0 ==> x !in Within(g, start, d - 1))
  }

  lemma {:induction false} WithinGrows(g: CsrGraph, start: u64, m: nat, n: nat)
    requires Valid(g) && m <= n
    ensures Within(g, start, m) <= Within(g, start, n)
  {
    hide Valid, OutgoingNeighbors;
    if m < n {
      WithinGrows(g, start, m, n - 1);
    }
  }

  lemma WithinStep(g: CsrGraph, start: u64, n: nat, x: u64, y: u64)
    requires Valid(g) && x in Within(g, start, n) && y in OutgoingNeighbors(g, x)
    ensures y in Within(g, start, n + 1)
  {
    hide Valid, OutgoingNeighbors;
  }

  // There is at most one distance.
  lemma DistanceUnique(g: CsrGraph, start: u64, x: u64, d: nat, d': nat)
    requires Valid(g) && IsDistance(g, start, x, d) && IsDistance(g, start, x, d')
    ensures d == d'
  {
    hide Valid, Within;
    if d < d' {
      WithinGrows(g, start, d, d' - 1);
    } else if d' < d {
      WithinGrows(g, start, d', d - 1);
    }
  }

  // All nodes a search could ever meet.
  ghost function Universe(g: CsrGraph, start: u64): set<u64> {
    {start} + set x | x in g.targets
  }

  lemma NeighboursInUniverse(g: CsrGraph, start: u64, x: u64)
    requires Valid(g)
    ensures forall y :: y in OutgoingNeighbors(g, x) ==> y in Universe(g, start)
  {
  }

  // ---- the search ----

  // order lists the nodes seen so far, by ascending depth; done of them have left the queue.
  ghost predicate Searching(g: CsrGraph, start: u64, visited: map<u64, nat>, order: seq<u64>, done: nat)
    requires Valid(g)
  {
    && NoRepeats(order) && done <= |order|
    && (forall x :: x in visited <==> x in order)
    && start in visited && visited[start] == 0
    && (forall x :: x in order ==> x in Within(g, start, visited[x]) && x in Universe(g, start))
    && (forall i, j :: 0 <= i < j < |order| ==> visited[order[i]] <= visited[order[j]])
  }

  // The nodes that have left the queue have had their neighbours seen, one level deeper at most.
  ghost predicate Expanded(g: CsrGraph, visited: map<u64, nat>, x: u64, ys: seq<u64>) {
    x in visited && forall y :: y in ys ==> y in visited && visited[y] <= visited[x] + 1
  }

  ghost predicate AllExpanded(g: CsrGraph, visited: map<u64, nat>, order: seq<u64>, done: nat, maxDepth: nat)
    requires Valid(g) && done <= |order|
  {
    forall i :: 0 <= i < done && order[i] in visited && visited[order[i]] < maxDepth ==>
      Expanded(g, visited, order[i], OutgoingNeighbors(g, order[i]))
  }

  // No seen node is more than one level below the head of the queue.
  ghost predicate NearHead(visited: map<u64, nat>, order: seq<u64>, level: nat) {
    forall x :: x in order && x in visited ==> visited[x] <= level + 1
  }

  lemma SeeOne(g: CsrGraph, start: u64, visited: map<u64, nat>, order: seq<u64>, done: nat, x: u64, y: u64)
    requires Valid(g) && Searching(g, start, visited, order, done)
    requires x in visited && y in OutgoingNeighbors(g, x) && y !in visited
    requires NearHead(visited, order, visited[x])
    ensures var visited' := visited[y := visited[x] + 1];
            Searching(g, start, visited', order + [y], done) && NearHead(visited', order + [y], visited[x])
  {
    hide Valid, OutgoingNeighbors, Universe, Within;
    WithinStep(g, start, visited[x], x, y);
    NeighboursInUniverse(g, start, x);
    var visited', order' := visited[y := visited[x] + 1], order + [y];
    assert forall z :: z in order' <==> z in order || z == y;
    forall i, j | 0 <= i < j < |order'| ensures order'[i] != order'[j] && visited'[order'[i]] <= visited'[order'[j]] {
      assert order[i] in order;
      if j < |order| {
        assert order[j] in order;
      }
    }
  }

  // Seeing another node keeps what has been expanded.
  lemma StillExpanded(g: CsrGraph, visited: map<u64, nat>, order: seq<u64>, done: nat, maxDepth: nat, y: u64, d: nat)
    requires Valid(g) && done <= |order| && AllExpanded(g, visited, order, done, maxDepth) && y !in visited
    requires forall x :: x in visited <==> x in order
    ensures AllExpanded(g, visited[y := d], order + [y], done, maxDepth)
  {
    hide Valid, OutgoingNeighbors;
    var visited', order' := visited[y := d], order + [y];
    forall i | 0 <= i < done && visited'[order'[i]] < maxDepth
      ensures Expanded(g, visited', order'[i], OutgoingNeighbors(g, order'[i]))
    {
      assert order'[i] == order[i] && order[i] in order;
      assert Expanded(g, visited, order[i], OutgoingNeighbors(g, order[i]));
    }
  }

  // Once all seen nodes are expanded, whatever lies within the depth limit has been seen, at its distance.
  lemma {:induction false} SeenInTime(g: CsrGraph, start: u64, visited: map<u64, nat>, order: seq<u64>,
                                      maxDepth: nat, n: nat)
    requires Valid(g) && Searching(g, start, visited, order, |order|) && n <= maxDepth
    requires AllExpanded(g, visited, order, |order|, maxDepth)
    ensures forall x :: x in Within(g, start, n) ==> x in visited && visited[x] <= n
  {
    hide Valid, OutgoingNeighbors, Universe;
    if n > 0 {
      SeenInTime(g, start, visited, order, maxDepth, n - 1);
      forall y | y in Within(g, start, n) ensures y in visited && visited[y] <= n {
        if y !in Within(g, start, n - 1) {
          var x :| x in Within(g, start, n - 1) && y in OutgoingNeighbors(g, x);
          var i :| 0 <= i < |order| && order[i] == x;
          assert Expanded(g, visited, order[i], OutgoingNeighbors(g, order[i]));
        }
      }
    }
  }

  ghost predicate NearestFirst(g: CsrGraph, start: u64, order: seq<u64>)
    requires Valid(g)
  {
    forall i, j, d, e ::
      0 <= i < j < |order| && IsDistance(g, start, order[i], d) && IsDistance(g, start, order[j], e) ==> d <= e
  }

  lemma {:induction false} DepthIsDistance(g: CsrGraph, start: u64, visited: map<u64, nat>, order: seq<u64>,
                                           maxDepth: nat, x: u64)
    requires Valid(g) && Searching(g, start, visited, order, |order|) && AllExpanded(g, visited, order, |order|, maxDepth)
    requires x in order && visited[x] <= maxDepth
    ensures IsDistance(g, start, x, visited[x])
  {
    hide Valid, OutgoingNeighbors, Universe, Within, AllExpanded;
    if visited[x] > 0 {
      SeenInTime(g, start, visited, order, maxDepth, visited[x] - 1);
    }
  }

  lemma SearchDone(g: CsrGraph, start: u64, visited: map<u64, nat>, order: seq<u64>, maxDepth: nat)
    requires Valid(g) && Searching(g, start, visited, order, |order|) && AllExpanded(g, visited, order, |order|, maxDepth)
    requires forall x :: x in order ==> visited[x] <= maxDepth
    ensures forall x :: x in order <==> x in Within(g, start, maxDepth)
    ensures NearestFirst(g, start, order)
  {
    hide Valid, OutgoingNeighbors, Universe, Within, AllExpanded, IsDistance;
    SeenInTime(g, start, visited, order, maxDepth, maxDepth);
    forall x | x in order ensures x in Within(g, start, maxDepth) {
      WithinGrows(g, start, visited[x], maxDepth);
    }
    forall i, j, d, e | 0 <= i < j < |order| && IsDistance(g, start, order[i], d) && IsDistance(g, start, order[j], e)
      ensures d <= e
    {
      DepthIsDistance(g, start, visited, order, maxDepth, order[i]);
      DepthIsDistance(g, start, visited, order, maxDepth, order[j]);
      DistanceUnique(g, start, order[i], d, visited[order[i]]);
      DistanceUnique(g, start, order[j], e, visited[order[j]]);
    }
  }

  lemma OrderFits(g: CsrGraph, start: u64, visited: map<u64, nat>, order: seq<u64>, done: nat)
    requires Valid(g) && Searching(g, start, visited, order, done)
    ensures |order| <= |Universe(g, start)|
  {
    hide Valid, OutgoingNeighbors, Universe, Within;
    DistinctSize(order);
    assert Elements(order) <= Universe(g, start);
    SubsetSize(Elements(order), Universe(g, start));
  }

  ghost function Elements(s: seq<u64>): set<u64> {
    set x | x in s
  }

  lemma {:induction false} DistinctSize(s: seq<u64>)
    requires NoRepeats(s)
    ensures |Elements(s)| == |s|
  {
    if s == [] {
      assert Elements(s) == {};
    } else {
      var front, last := s[..|s| - 1], s[|s| - 1];
      DistinctSize(front);
      assert s == front + [last] && last !in front;
      assert Elements(s) == Elements(front) + {last};
    }
  }

  lemma {:induction false} SubsetSize(a: set<u64>, b: set<u64>)
    requires a <= b
    ensures |a| <= |b|
    decreases |a|
  {
    if a != {} {
      var x :| x in a;
      SubsetSize(a - {x}, b - {x});
    }
  }

  // See all neighbours of the node taken from the queue.
  method Expand(g: CsrGraph, ghost start: u64, current: u64, visited: map<u64, nat>, queue: seq<u64>,
                order: seq<u64>, ghost done: nat, ghost maxDepth: nat)
    returns (visited': map<u64, nat>, queue': seq<u64>, order': seq<u64>)
    requires Valid(g) && Searching(g, start, visited, order, done) && done > 0 && order[done - 1] == current
    requires queue == order[done..] && current in visited && visited[current] < maxDepth
    requires NearHead(visited, order, visited[current])
    requires AllExpanded(g, visited, order, done - 1, maxDepth)
    ensures Searching(g, start, visited', order', done) && |order'| >= |order| && queue' == order'[done..]
    ensures AllExpanded(g, visited', order', done, maxDepth)
    ensures order <= order' && forall x :: x in visited ==> x in visited' && visited'[x] == visited[x]
    ensures NearHead(visited', order', visited[current])
    ensures forall x :: x in order' && x !in order ==> visited'[x] == visited[current] + 1
  {
    hide Valid, OutgoingNeighbors, Searching, NearHead, AllExpanded, Expanded;
    SearchingFacts(g, start, visited, order, done);
    var depth := visited[current];
    var neighbors := OutgoingNeighbors(g, current);
    visited', queue', order' := visited, queue, order;
    for k := 0 to |neighbors|
      invariant Searching(g, start, visited', order', done) && done <= |order'| && queue' == order'[done..]
      invariant order <= order' && forall x :: x in visited ==> x in visited' && visited'[x] == visited[x]
      invariant NearHead(visited', order', depth)
      invariant AllExpanded(g, visited', order', done - 1, maxDepth)
      invariant forall x :: x in visited' <==> x in order'
      invariant forall i :: 0 <= i < k ==> neighbors[i] in visited' && visited'[neighbors[i]] <= depth + 1
      invariant forall x :: x in order' && x !in order ==> visited'[x] == depth + 1
    {
      var neighbor := neighbors[k];
      if neighbor !in visited' {
        SeeOne(g, start, visited', order', done, current, neighbor);
        StillExpanded(g, visited', order', done - 1, maxDepth, neighbor, depth + 1);
        TailSnoc(order', neighbor, done);
        visited' := visited'[neighbor := depth + 1];
        queue' := queue' + [neighbor];
        order' := order' + [neighbor];
      }
      NeighbourSeen(visited', order', depth, neighbor);
    }
    SeenIsExpanded(g, visited', current, neighbors);
    NowExpanded(g, visited', order', done, maxDepth);
  }

  lemma SearchingFacts(g: CsrGraph, start: u64, visited: map<u64, nat>, order: seq<u64>, done: nat)
    requires Valid(g) && Searching(g, start, visited, order, done)
    ensures done <= |order| && forall x :: x in visited <==> x in order
  {
    hide Valid, OutgoingNeighbors, Universe, Within;
  }

  lemma TailSnoc(s: seq<u64>, x: u64, n: nat)
    requires n <= |s|
    ensures (s + [x])[n..] == s[n..] + [x] && s <= s + [x]
  {
  }

  lemma NeighbourSeen(visited: map<u64, nat>, order: seq<u64>, depth: nat, y: u64)
    requires y in visited && y in order && NearHead(visited, order, depth)
    ensures visited[y] <= depth + 1
  {
  }

  lemma SeenIsExpanded(g: CsrGraph, visited: map<u64, nat>, x: u64, ys: seq<u64>)
    requires x in visited && forall i :: 0 <= i < |ys| ==> ys[i] in visited && visited[ys[i]] <= visited[x] + 1
    ensures Expanded(g, visited, x, ys)
  {
  }

  lemma NowExpanded(g: CsrGraph, visited: map<u64, nat>, order: seq<u64>, done: nat, maxDepth: nat)
    requires Valid(g) && 0 < done <= |order| && AllExpanded(g, visited, order, done - 1, maxDepth)
    requires Expanded(g, visited, order[done - 1], OutgoingNeighbors(g, order[done - 1]))
    ensures AllExpanded(g, visited, order, done, maxDepth)
  {
    hide Valid, OutgoingNeighbors, Expanded;
  }

  method Bfs(g: CsrGraph, start: u64, maxDepth: nat) returns (order: seq<u64>)
    requires Valid(g)
    ensures NoRepeats(order) && order != [] && order[0] == start
    ensures forall x :: x in order <==> x in Within(g, start, maxDepth)
    ensures NearestFirst(g, start, order)
  {
    hide Valid, OutgoingNeighbors, Universe, Within, AllExpanded, NearestFirst;
    var visited: map<u64, nat> := map[start := 0];
    var queue := [start];
    order := [start];
    ghost var done := 0;
    StartOfSearch(g, start, maxDepth);
    while |queue| > 0
      invariant Searching(g, start, visited, order, done) && queue == order[done..] && order[0] == start
      invariant AllExpanded(g, visited, order, done, maxDepth)
      invariant forall x :: x in order ==> visited[x] <= maxDepth
      invariant queue != [] ==> NearHead(visited, order, visited[queue[0]])
      decreases |Universe(g, start)| - done
    {
      OrderFits(g, start, visited, order, done);
      var current := queue[0];
      queue := queue[1..];
      done := done + 1;
      var depth := visited[current];
      if depth >= maxDepth {
        DeepEnough(g, visited, order, done, maxDepth);
        NextHead(g, start, visited, order, done);
        continue;
      }
      visited, queue, order := Expand(g, start, current, visited, queue, order, done, maxDepth);
      NextHead(g, start, visited, order, done);
    }
    SearchDone(g, start, visited, order, maxDepth);
  }

  lemma StartOfSearch(g: CsrGraph, start: u64, maxDepth: nat)
    requires Valid(g)
    ensures var visited := map[start := 0 as nat];
            && Searching(g, start, visited, [start], 0) && AllExpanded(g, visited, [start], 0, maxDepth)
            && NearHead(visited, [start], 0)
  {
    hide Valid, OutgoingNeighbors;
  }

  // A node at the depth limit needs no expansion.
  lemma DeepEnough(g: CsrGraph, visited: map<u64, nat>, order: seq<u64>, done: nat, maxDepth: nat)
    requires Valid(g) && 0 < done <= |order| && order[done - 1] in visited && visited[order[done - 1]] >= maxDepth
    requires AllExpanded(g, visited, order, done - 1, maxDepth)
    ensures AllExpanded(g, visited, order, done, maxDepth)
  {
    hide Valid, OutgoingNeighbors, Expanded;
  }

  lemma NextHead(g: CsrGraph, start: u64, visited: map<u64, nat>, order: seq<u64>, done: nat)
    requires Valid(g) && Searching(g, start, visited, order, done) && done > 0
    requires NearHead(visited, order, visited[order[done - 1]])
    ensures done < |order| ==> NearHead(visited, order, visited[order[done]])
  {
    hide Valid, OutgoingNeighbors, Universe, Within;
  }
}
