// Triangle counting over a CSR graph: what the sum of common-neighbour counts is.
module Triangles {
  import opened Bytes
  import opened Keyed
  import opened Csr

  ghost predicate Adjacent(g: CsrGraph, u: u64, v: u64)
    requires Valid(g)
  {
    v in OutgoingNeighbors(g, u)
  }

  // No duplicate edges, no loops, and every edge in both directions.
  ghost predicate Simple(g: CsrGraph)
    requires Valid(g)
  {
    && (forall u :: Ascending(OutgoingNeighbors(g, u)))
    && (forall u :: !Adjacent(g, u, u))
    && (forall u, v :: Adjacent(g, u, v) ==> Adjacent(g, v, u))
  }

  type Triple = (u64, u64, u64)

  ghost function NodeSet(g: CsrGraph): set<u64> {
    set id | id in g.ids
  }

  // Unordered triangles, each listed in ascending order.
  ghost function TriangleSet(g: CsrGraph): set<Triple>
    requires Valid(g)
  {
    set a, b, c | a in NodeSet(g) && b in NodeSet(g) && c in NodeSet(g)
                  && a < b < c && Adjacent(g, a, b) && Adjacent(g, b, c) && Adjacent(g, a, c) :: (a, b, c)
  }

  // ---- counting ----

  function CommonCount(g: CsrGraph, u: u64, v: u64): nat
    requires Valid(g)
  {
    |multiset(OutgoingNeighbors(g, u)) * multiset(OutgoingNeighbors(g, v))|
  }

  // What the inner loop adds up over the edges of u.
  function EdgeSum(g: CsrGraph, u: u64, vs: seq<u64>): nat
    requires Valid(g)
  {
    if vs == [] then 0
    else EdgeSum(g, u, vs[..|vs| - 1]) + if vs[|vs| - 1] > u then CommonCount(g, u, vs[|vs| - 1]) else 0
  }

  // What the outer loop adds up over the nodes.
  function NodeSum(g: CsrGraph, us: seq<u64>): nat
    requires Valid(g)
  {
    if us == [] then 0 else NodeSum(g, us[..|us| - 1]) + EdgeSum(g, us[|us| - 1], OutgoingNeighbors(g, us[|us| - 1]))
  }

  lemma RowOf(g: CsrGraph, idx: nat)
    requires Valid(g) && idx < |g.ids|
    ensures idx + 1 < |g.offsets| && g.offsets[idx] <= g.offsets[idx + 1] <= |g.targets|
    ensures OutgoingNeighbors(g, g.ids[idx]) == g.targets[g.offsets[idx]..g.offsets[idx + 1]]
  {
  }

  lemma SumSteps(g: CsrGraph, u: u64, vs: seq<u64>, i: nat)
    requires Valid(g) && i < |vs|
    ensures EdgeSum(g, u, vs[..i + 1]) == EdgeSum(g, u, vs[..i]) + if vs[i] > u then CommonCount(g, u, vs[i]) else 0
    ensures NodeSum(g, vs[..i + 1]) == NodeSum(g, vs[..i]) + EdgeSum(g, vs[i], OutgoingNeighbors(g, vs[i]))
  {
    hide CommonCount, OutgoingNeighbors, Valid;
    assert vs[..i + 1][..i] == vs[..i];
  }

  // Common neighbours summed over the edges u < v, divided by three.
  method TriangleCount(g: CsrGraph) returns (triangles: nat)
    requires Valid(g)
    ensures triangles == NodeSum(g, g.ids) / 3
    ensures Simple(g) ==> triangles == |TriangleSet(g)|
  {
    hide Valid, OutgoingNeighbors, Simple, TriangleSet, NodeSum, EdgeSum;
    var total := 0;
    NothingSummed(g);
    for uIdx := 0 to |g.ids|
      invariant total == NodeSum(g, g.ids[..uIdx])
    {
      var u := g.ids[uIdx];
      RowOf(g, uIdx);
      SumSteps(g, u, g.ids, uIdx);
      var startU, endU := g.offsets[uIdx], g.offsets[uIdx + 1];
      ghost var row, sum := OutgoingNeighbors(g, u), total;
      for edgePos := startU to endU
        invariant total == sum + EdgeSum(g, u, row[..edgePos - startU])
      {
        var v := g.targets[edgePos];
        SumSteps(g, u, row, edgePos - startU);
        if v > u {
          var common := CommonNeighborsCount(g, u, v);
          total := total + common;
        }
      }
      SliceAll(row);
    }
    SliceAll(g.ids);
    if Simple(g) {
      SumIsThreefold(g);
    }
    return total / 3;
  }

  lemma NothingSummed(g: CsrGraph)
    requires Valid(g)
    ensures NodeSum(g, g.ids[..0]) == 0
    ensures forall u, s: seq<u64> :: EdgeSum(g, u, s[..0]) == 0
  {
  }

  // ---- the sum as a number of triples (u, v, w): an edge u < v and a common neighbour w ----

  ghost function Commons(g: CsrGraph, u: u64, v: u64): set<u64>
    requires Valid(g)
  {
    set w | w in OutgoingNeighbors(g, u) && w in OutgoingNeighbors(g, v)
  }

  lemma {:induction false} AscendingIsSet(s: seq<u64>)
    requires Ascending(s)
    ensures forall x :: multiset(s)[x] == if x in s then 1 else 0
  {
    if s != [] {
      var front, last := s[..|s| - 1], s[|s| - 1];
      assert s == front + [last];
      AscendingIsSet(front);
      forall i | 0 <= i < |front| ensures front[i] != last {
        assert s[i] < s[|s| - 1];
      }
    }
  }

  lemma MultisetOfSet(m: multiset<u64>, s: set<u64>)
    requires forall x :: m[x] == if x in s then 1 else 0
    ensures |m| == |s|
  {
    assert m == multiset(s);
  }

  lemma CommonCountIsCommons(g: CsrGraph, u: u64, v: u64)
    requires Valid(g) && Simple(g)
    ensures CommonCount(g, u, v) == |Commons(g, u, v)|
  {
    AscendingIsSet(OutgoingNeighbors(g, u));
    AscendingIsSet(OutgoingNeighbors(g, v));
    MultisetOfSet(multiset(OutgoingNeighbors(g, u)) * multiset(OutgoingNeighbors(g, v)), Commons(g, u, v));
  }

  // Triples whose edge starts at u and ends in vs.
  ghost function TriplesAt(g: CsrGraph, u: u64, vs: seq<u64>): set<Triple>
    requires Valid(g)
  {
    set v, w | v in vs && v > u && w in Commons(g, u, v) :: (u, v, w)
  }

  ghost function TriplesOf(g: CsrGraph, us: seq<u64>): set<Triple>
    requires Valid(g)
  {
    set u, v, w | u in us && v in OutgoingNeighbors(g, u) && v > u && w in Commons(g, u, v) :: (u, v, w)
  }

  // An injective image is as large as the set.
  ghost function Paired(u: u64, v: u64, ws: set<u64>): set<Triple> {
    set w | w in ws :: (u, v, w)
  }

  lemma {:induction false} PairedSize(u: u64, v: u64, ws: set<u64>)
    ensures |Paired(u, v, ws)| == |ws|
    decreases |ws|
  {
    if ws != {} {
      var w :| w in ws;
      PairedSize(u, v, ws - {w});
      assert Paired(u, v, ws) == Paired(u, v, ws - {w}) + {(u, v, w)};
    } else {
      assert Paired(u, v, ws) == {};
    }
  }

  lemma {:induction false} EdgeSumIsTriples(g: CsrGraph, u: u64, vs: seq<u64>)
    requires Valid(g) && Simple(g) && Ascending(vs)
    ensures EdgeSum(g, u, vs) == |TriplesAt(g, u, vs)|
  {
    hide CommonCount, Commons, Simple, Valid;
    if vs == [] {
      assert TriplesAt(g, u, vs) == {};
    } else {
      var front, v := vs[..|vs| - 1], vs[|vs| - 1];
      assert vs == front + [v];
      EdgeSumIsTriples(g, u, front);
      assert v !in front by { LastIsNew(vs); }
      if v > u {
        CommonCountIsCommons(g, u, v);
        PairedSize(u, v, Commons(g, u, v));
        assert TriplesAt(g, u, vs) == TriplesAt(g, u, front) + Paired(u, v, Commons(g, u, v));
      } else {
        assert TriplesAt(g, u, vs) == TriplesAt(g, u, front);
      }
    }
  }

  lemma LastIsNew(s: seq<u64>)
    requires Ascending(s) && s != []
    ensures s[|s| - 1] !in s[..|s| - 1]
  {
    assert forall i :: 0 <= i < |s| - 1 ==> s[i] < s[|s| - 1];
  }

  lemma NoTriples(g: CsrGraph)
    requires Valid(g)
    ensures TriplesOf(g, []) == {}
  {
  }

  lemma TriplesOneMore(g: CsrGraph, us: seq<u64>, u: u64)
    requires Valid(g) && u !in us
    ensures TriplesOf(g, us + [u]) == TriplesOf(g, us) + TriplesAt(g, u, OutgoingNeighbors(g, u))
    ensures TriplesOf(g, us) !! TriplesAt(g, u, OutgoingNeighbors(g, u))
  {
    hide Commons, Valid, OutgoingNeighbors;
  }

  lemma {:induction false} NodeSumIsTriples(g: CsrGraph, us: seq<u64>)
    requires Valid(g) && Simple(g) && NoRepeats(us)
    ensures NodeSum(g, us) == |TriplesOf(g, us)|
  {
    hide Commons, Valid, EdgeSum, CommonCount, TriplesOf, TriplesAt, OutgoingNeighbors;
    if us == [] {
      NoTriples(g);
    } else {
      var front, u := us[..|us| - 1], us[|us| - 1];
      assert us == front + [u];
      NodeSumIsTriples(g, front);
      EdgeSumIsTriples(g, u, OutgoingNeighbors(g, u));
      TriplesOneMore(g, front, u);
    }
  }

  // ---- every triangle is counted for each of its edges ----

  // The common neighbour in front of, between and behind the two ends of the edge.
  ghost function First(t: Triple): Triple { (t.1, t.2, t.0) }
  ghost function Middle(t: Triple): Triple { (t.0, t.2, t.1) }
  ghost function Last(t: Triple): Triple { t }

  ghost predicate Injective(f: Triple -> Triple) {
    forall x, y :: f(x) == f(y) ==> x == y
  }

  lemma {:induction false} ImageSize(s: set<Triple>, f: Triple -> Triple)
    requires Injective(f)
    ensures |Image(s, f)| == |s|
    decreases |s|
  {
    if s != {} {
      var x :| x in s;
      var rest := s - {x};
      ImageSize(rest, f);
      var smaller := Image(rest, f);
      assert Image(s, f) == smaller + {f(x)};
      assert f(x) !in smaller;
    } else {
      assert Image(s, f) == {};
    }
  }

  lemma NeighbourIsNode(g: CsrGraph, u: u64, v: u64)
    requires Valid(g) && Simple(g) && Adjacent(g, u, v)
    ensures u in NodeSet(g) && v in NodeSet(g) && Adjacent(g, v, u) && u != v
  {
    assert Adjacent(g, v, u);
    assert !Adjacent(g, u, u);
    if u in g.idxOf && v in g.idxOf {
      assert g.ids[g.idxOf[u]] == u && g.ids[g.idxOf[v]] == v;
    }
  }

  ghost function Image(s: set<Triple>, f: Triple -> Triple): set<Triple> {
    set t | t in s :: f(t)
  }

  // A counted triple is a triangle with its common neighbour in one of three places.
  lemma CountedIsTriangle(g: CsrGraph, u: u64, v: u64, w: u64)
    requires Valid(g) && Simple(g) && Adjacent(g, u, v) && u < v && Adjacent(g, u, w) && Adjacent(g, v, w)
    ensures w != u && w != v
    ensures w < u ==> (w, u, v) in TriangleSet(g)
    ensures u < w < v ==> (u, w, v) in TriangleSet(g)
    ensures v < w ==> (u, v, w) in TriangleSet(g)
  {
    hide OutgoingNeighbors, Simple, Valid;
    NeighbourIsNode(g, u, v);
    NeighbourIsNode(g, u, w);
    NeighbourIsNode(g, v, w);
  }

  lemma TriangleIsCounted(g: CsrGraph, t: Triple)
    requires Valid(g) && Simple(g) && t in TriangleSet(g)
    ensures First(t) in TriplesOf(g, g.ids) && Middle(t) in TriplesOf(g, g.ids) && Last(t) in TriplesOf(g, g.ids)
  {
    hide OutgoingNeighbors, Simple, Valid;
    NeighbourIsNode(g, t.0, t.1);
    NeighbourIsNode(g, t.1, t.2);
    NeighbourIsNode(g, t.0, t.2);
  }

  lemma CountedTriples(g: CsrGraph)
    requires Valid(g) && Simple(g)
    ensures var s := TriangleSet(g);
            TriplesOf(g, g.ids) == Image(s, First) + Image(s, Middle) + Image(s, Last)
  {
    hide OutgoingNeighbors, Simple, Valid, TriangleSet;
    var s := TriangleSet(g);
    forall x | x in TriplesOf(g, g.ids) ensures x in Image(s, First) + Image(s, Middle) + Image(s, Last) {
      var (u, v, w) := x;
      CountedIsTriangle(g, u, v, w);
      assert w < u ==> x == First((w, u, v));
      assert u < w < v ==> x == Middle((u, w, v));
      assert v < w ==> x == Last(x);
    }
    forall t | t in s
      ensures First(t) in TriplesOf(g, g.ids) && Middle(t) in TriplesOf(g, g.ids) && Last(t) in TriplesOf(g, g.ids)
    {
      TriangleIsCounted(g, t);
    }
  }

  lemma PlacesApart(g: CsrGraph)
    requires Valid(g)
    ensures var s := TriangleSet(g);
            Image(s, First) !! Image(s, Middle) && (Image(s, First) + Image(s, Middle)) !! Image(s, Last)
  {
    hide OutgoingNeighbors, Valid;
  }

  // On simple symmetric graphs the sum is exactly three times the number of triangles.
  lemma SumIsThreefold(g: CsrGraph)
    requires Valid(g) && Simple(g)
    ensures NodeSum(g, g.ids) == 3 * |TriangleSet(g)|
  {
    hide NodeSum, TriplesOf, TriangleSet, Simple, Valid;
    NodesDistinct(g);
    NodeSumIsTriples(g, g.ids);
    CountedTriples(g);
    PlacesApart(g);
    var s := TriangleSet(g);
    ImageSize(s, First);
    ImageSize(s, Middle);
    ImageSize(s, Last);
  }

  lemma NodesDistinct(g: CsrGraph)
    requires Valid(g)
    ensures NoRepeats(g.ids)
  {
  }
}
