// Step-by-step graph traversal and the bounded heap over its candidates (src/graph/chain.rs).
module Traversal {
  import opened Wrappers
  import opened Bytes

  datatype Edge = Edge(id: u64, weight: real)

  datatype TraversalStep = TraversalStep(direction: nat, edgeLabel: Option<string>, minWeight: Option<real>)
  {
    predicate Admits(e: Edge) {
      minWeight.Some? ==> e.weight >= minWeight.value
    }
  }

  // The graph engine: its nodes, and the neighbours and edges a step's direction and label lead to.
  datatype Graph = Graph(nodes: set<u64>, neighbours: (u64, TraversalStep) -> seq<(u64, Edge)>)

  // A node with the edges that led to it.
  type Candidate = (u64, seq<Edge>)

  ghost predicate Hop(g: Graph, step: TraversalStep, x: u64, e: Edge, y: u64) {
    (y, e) in g.neighbours(x, step) && step.Admits(e)
  }

  // The path leads from x to y, one admitted edge for each step.
  ghost predicate Walk(g: Graph, steps: seq<TraversalStep>, x: u64, path: seq<Edge>, y: u64)
    decreases |steps|
  {
    && |path| == |steps|
    && if steps == [] then x == y
       else
         var n := |steps| - 1;
         exists m :: Walk(g, steps[..n], x, path[..n], m) && Hop(g, steps[n], m, path[n], y)
  }

  // A walk from one of the start nodes.
  ghost predicate Led(g: Graph, starts: seq<u64>, steps: seq<TraversalStep>, path: seq<Edge>, y: u64) {
    exists x :: x in starts && x in g.nodes && Walk(g, steps, x, path, y)
  }

  ghost predicate Reaches(frontier: seq<Candidate>, y: u64) {
    exists c :: c in frontier && c.0 == y
  }

  // The frontier consists of walks, and every node a walk leads to is in it.
  ghost predicate Resolved(g: Graph, starts: seq<u64>, steps: seq<TraversalStep>, frontier: seq<Candidate>) {
    && (forall c :: c in frontier ==> Led(g, starts, steps, c.1, c.0))
    && (forall path, y :: Led(g, starts, steps, path, y) ==> Reaches(frontier, y))
  }

  // ---- one step ----

  // The two nodes of a hop and its edge's id.
  type Triple = (u64, u64, u64)

  // What one neighbour offers: a longer path, under the hop it would take.
  datatype Offer = Offer(hop: Triple, candidate: Candidate)

  // The admitted neighbours of a frontier node, in order.
  function OffersOf(step: TraversalStep, f: Candidate, neighbors: seq<(u64, Edge)>): seq<Offer> {
    if neighbors == [] then []
    else
      var (y, e) := neighbors[|neighbors| - 1];
      OffersOf(step, f, neighbors[..|neighbors| - 1])
      + if step.Admits(e) then [Offer((f.0, y, e.id), (y, f.1 + [e]))] else []
  }

  function Offers(g: Graph, step: TraversalStep, frontier: seq<Candidate>): seq<Offer> {
    if frontier == [] then []
    else
      var f := frontier[|frontier| - 1];
      Offers(g, step, frontier[..|frontier| - 1]) + OffersOf(step, f, g.neighbours(f.0, step))
  }

  function Hops(offers: seq<Offer>): (s: seq<Triple>)
    ensures |s| == |offers| && forall i :: 0 <= i < |s| ==> s[i] == offers[i].hop
  {
    seq(|offers|, i requires 0 <= i < |offers| => offers[i].hop)
  }

  // The first offer of every hop.
  function Firsts(offers: seq<Offer>): seq<Offer> {
    if offers == [] then []
    else
      var front, last := Firsts(offers[..|offers| - 1]), offers[|offers| - 1];
      if last.hop in Hops(front) then front else front + [last]
  }

  function CandidatesOf(offers: seq<Offer>): (s: seq<Candidate>)
    ensures |s| == |offers| && forall i :: 0 <= i < |s| ==> s[i] == offers[i].candidate
  {
    seq(|offers|, i requires 0 <= i < |offers| => offers[i].candidate)
  }

  function NextFrontier(g: Graph, step: TraversalStep, frontier: seq<Candidate>): seq<Candidate> {
    CandidatesOf(Firsts(Offers(g, step, frontier)))
  }

  // Entry i is the first of the frontier at node x, and neighbour j the first one this hop leads to.
  ghost predicate Chosen(g: Graph, step: TraversalStep, frontier: seq<Candidate>, o: Offer, i: nat, j: nat) {
    var (x, y, id) := o.hop;
    var list := g.neighbours(x, step);
    && i < |frontier| && frontier[i].0 == x && (forall k :: 0 <= k < i ==> frontier[k].0 != x)
    && j < |list| && Leads(step, list[j], y, id) && (forall k :: 0 <= k < j ==> !Leads(step, list[k], y, id))
    && o.candidate == (y, frontier[i].1 + [list[j].1])
  }

  ghost predicate FromFirst(g: Graph, step: TraversalStep, frontier: seq<Candidate>, o: Offer) {
    exists i: nat, j: nat :: Chosen(g, step, frontier, o, i, j)
  }

  predicate Leads(step: TraversalStep, neighbor: (u64, Edge), y: u64, id: u64) {
    step.Admits(neighbor.1) && neighbor.0 == y && neighbor.1.id == id
  }

  // A hop from a node of the frontier.
  ghost predicate CanHop(g: Graph, step: TraversalStep, frontier: seq<Candidate>, v: Triple) {
    Reaches(frontier, v.0) && exists n :: n in g.neighbours(v.0, step) && Leads(step, n, v.1, v.2)
  }

  lemma OneMoreOffer(offers: seq<Offer>, o: Offer)
    ensures Hops(Firsts(offers) + [o]) == Hops(Firsts(offers)) + [o.hop]
    ensures CandidatesOf(Firsts(offers) + [o]) == CandidatesOf(Firsts(offers)) + [o.candidate]
    ensures Firsts(offers + [o]) == if o.hop in Hops(Firsts(offers)) then Firsts(offers) else Firsts(offers) + [o]
  {
    assert (offers + [o])[..|offers|] == offers;
  }

  // The first offers: each hop once, and none missing.
  lemma {:induction false} FirstsDistinct(offers: seq<Offer>)
    ensures var hops := Hops(Firsts(offers));
            && (forall i, j :: 0 <= i < j < |hops| ==> hops[i] != hops[j])
            && (forall v :: v in hops <==> v in Hops(offers))
  {
    if offers != [] {
      var front, last := offers[..|offers| - 1], offers[|offers| - 1];
      assert offers == front + [last];
      FirstsDistinct(front);
      OneMoreOffer(front, last);
      HopsTogether(front, [last]);
      assert Hops([last]) == [last.hop];
    }
  }

  // Each is what was first offered for its hop.
  lemma {:induction false} FirstsFirst(offers: seq<Offer>, o: Offer) returns (k: nat)
    requires o in Firsts(offers)
    ensures FirstAt(offers, k) && offers[k] == o
  {
    var front, last := offers[..|offers| - 1], offers[|offers| - 1];
    if o in Firsts(front) {
      k := FirstsFirst(front, o);
    } else {
      k := |front|;
      FirstsDistinct(front);
      assert last.hop !in Hops(front);
      forall i | 0 <= i < |front| ensures offers[i].hop != last.hop {
        assert Hops(front)[i] == offers[i].hop;
      }
    }
  }

  // No earlier offer is of the same hop.
  ghost predicate FirstAt(offers: seq<Offer>, k: nat) {
    k < |offers| && forall i :: 0 <= i < k ==> offers[i].hop != offers[k].hop
  }

  lemma FirstInFront(a: seq<Offer>, b: seq<Offer>, k: nat)
    requires FirstAt(a + b, k) && k < |a|
    ensures FirstAt(a, k) && (a + b)[k] == a[k]
  {
    forall i | 0 <= i < k ensures a[i].hop != a[k].hop {
      assert a[i] == (a + b)[i];
    }
  }

  lemma FirstBehind(a: seq<Offer>, b: seq<Offer>, k: nat)
    requires FirstAt(a + b, k) && k >= |a|
    ensures FirstAt(b, k - |a|) && (a + b)[k] == b[k - |a|] && b[k - |a|].hop !in Hops(a)
  {
    forall i | 0 <= i < k - |a| ensures b[i].hop != b[k - |a|].hop {
      assert b[i] == (a + b)[|a| + i];
    }
    forall i | 0 <= i < |a| ensures Hops(a)[i] != b[k - |a|].hop {
      assert a[i] == (a + b)[i];
    }
  }

  lemma {:induction false} OffersOfHops(step: TraversalStep, f: Candidate, neighbors: seq<(u64, Edge)>, v: Triple)
    ensures v in Hops(OffersOf(step, f, neighbors)) <==> v.0 == f.0 && exists n :: n in neighbors && Leads(step, n, v.1, v.2)
  {
    if neighbors != [] {
      var front, last := neighbors[..|neighbors| - 1], neighbors[|neighbors| - 1];
      assert neighbors == front + [last];
      OffersOfHops(step, f, front, v);
      assert forall n :: n in neighbors <==> n in front || n == last;
      if step.Admits(last.1) {
        var o := Offer((f.0, last.0, last.1.id), (last.0, f.1 + [last.1]));
        HopsTogether(OffersOf(step, f, front), [o]);
        assert OffersOf(step, f, neighbors) == OffersOf(step, f, front) + [o];
        assert Hops([o]) == [o.hop];
        assert v == o.hop <==> v.0 == f.0 && Leads(step, last, v.1, v.2);
      } else {
        assert OffersOf(step, f, neighbors) == OffersOf(step, f, front);
      }
    }
  }

  lemma HopsTogether(a: seq<Offer>, b: seq<Offer>)
    ensures Hops(a + b) == Hops(a) + Hops(b)
  {
  }

  lemma {:induction false} OffersHops(g: Graph, step: TraversalStep, frontier: seq<Candidate>, v: Triple)
    ensures v in Hops(Offers(g, step, frontier)) <==> CanHop(g, step, frontier, v)
  {
    hide Leads;
    if frontier != [] {
      var front, f := frontier[..|frontier| - 1], frontier[|frontier| - 1];
      assert frontier == front + [f];
      OffersHops(g, step, front, v);
      OffersOfHops(step, f, g.neighbours(f.0, step), v);
      HopsTogether(Offers(g, step, front), OffersOf(step, f, g.neighbours(f.0, step)));
    }
  }

  lemma {:induction false} FirstOfNode(step: TraversalStep, f: Candidate, neighbors: seq<(u64, Edge)>, k: nat)
    returns (j: nat)
    requires FirstAt(OffersOf(step, f, neighbors), k)
    ensures var o := OffersOf(step, f, neighbors)[k];
            && o.hop.0 == f.0 && j < |neighbors| && Leads(step, neighbors[j], o.hop.1, o.hop.2)
            && (forall i :: 0 <= i < j ==> !Leads(step, neighbors[i], o.hop.1, o.hop.2))
            && o.candidate == (o.hop.1, f.1 + [neighbors[j].1])
  {
    var front, last := neighbors[..|neighbors| - 1], neighbors[|neighbors| - 1];
    var before, own := OffersOf(step, f, front), [Offer((f.0, last.0, last.1.id), (last.0, f.1 + [last.1]))];
    if k < |before| {
      FirstInFront(before, if step.Admits(last.1) then own else [], k);
      j := FirstOfNode(step, f, front, k);
    } else {
      FirstBehind(before, own, k);
      j := |front|;
      OffersOfHops(step, f, front, own[0].hop);
      forall i | 0 <= i < j ensures !Leads(step, neighbors[i], last.0, last.1.id) {
        assert front[i] in front;
      }
    }
  }

  lemma {:induction false} FirstIsChosen(g: Graph, step: TraversalStep, frontier: seq<Candidate>, k: nat)
    returns (i: nat, j: nat)
    requires FirstAt(Offers(g, step, frontier), k)
    ensures Chosen(g, step, frontier, Offers(g, step, frontier)[k], i, j)
  {
    hide Leads, OffersOf;
    var front, f := frontier[..|frontier| - 1], frontier[|frontier| - 1];
    var list := g.neighbours(f.0, step);
    var before, own := Offers(g, step, front), OffersOf(step, f, list);
    if k < |before| {
      FirstInFront(before, own, k);
      i, j := FirstIsChosen(g, step, front, k);
    } else {
      FirstBehind(before, own, k);
      i := |front|;
      j := FirstOfNode(step, f, list, k - |before|);
      NewToFrontier(g, step, front, own[k - |before|].hop, list[j]);
    }
  }

  // A hop not offered so far starts from a node not met so far.
  lemma NewToFrontier(g: Graph, step: TraversalStep, front: seq<Candidate>, v: Triple, n: (u64, Edge))
    requires v !in Hops(Offers(g, step, front)) && n in g.neighbours(v.0, step) && Leads(step, n, v.1, v.2)
    ensures forall k :: 0 <= k < |front| ==> front[k].0 != v.0
  {
    OffersHops(g, step, front, v);
    forall k | 0 <= k < |front| ensures front[k].0 != v.0 {
      assert front[k] in front;
    }
  }

  // The next frontier has one candidate for every hop, with the path of the first entry at that node and
  // the first such edge.
  lemma NextExact(g: Graph, step: TraversalStep, frontier: seq<Candidate>) returns (hops: seq<Triple>)
    ensures var next := NextFrontier(g, step, frontier);
            && |hops| == |next|
            && (forall i, j :: 0 <= i < j < |hops| ==> hops[i] != hops[j])
            && (forall v :: v in hops <==> CanHop(g, step, frontier, v))
            && forall m :: 0 <= m < |next| ==> FromFirst(g, step, frontier, Offer(hops[m], next[m]))
  {
    hide CanHop;
    var offers, next := Offers(g, step, frontier), NextFrontier(g, step, frontier);
    hops := Hops(Firsts(offers));
    FirstsDistinct(offers);
    forall v: Triple ensures v in hops <==> CanHop(g, step, frontier, v) {
      OffersHops(g, step, frontier, v);
    }
    forall m | 0 <= m < |next|
      ensures FromFirst(g, step, frontier, Offer(hops[m], next[m]))
    {
      var o := Firsts(offers)[m];
      var k := FirstsFirst(offers, o);
      var i, j := FirstIsChosen(g, step, frontier, k);
      assert o == Offer(hops[m], next[m]);
    }
  }

  // All admitted neighbours of one frontier node, each hop once.
  method PushNeighbours(g: Graph, step: TraversalStep, f: Candidate, next: seq<Candidate>, visited: set<Triple>,
                        ghost before: seq<Offer>)
    returns (next': seq<Candidate>, visited': set<Triple>)
    requires next == CandidatesOf(Firsts(before)) && forall v :: v in visited <==> v in Hops(Firsts(before))
    ensures var offers := before + OffersOf(step, f, g.neighbours(f.0, step));
            next' == CandidatesOf(Firsts(offers)) && forall v :: v in visited' <==> v in Hops(Firsts(offers))
  {
    hide Firsts;
    next', visited' := next, visited;
    var neighbors := g.neighbours(f.0, step);
    ghost var offers := before;
    assert before + [] == before;
    for i := 0 to |neighbors|
      invariant offers == before + OffersOf(step, f, neighbors[..i])
      invariant next' == CandidatesOf(Firsts(offers)) && forall v :: v in visited' <==> v in Hops(Firsts(offers))
    {
      var (neighbor, edge) := neighbors[i];
      assert neighbors[..i + 1][..i] == neighbors[..i];
      if step.minWeight.Some? && edge.weight < step.minWeight.value {
        continue;
      }
      ghost var o := Offer((f.0, neighbor, edge.id), (neighbor, f.1 + [edge]));
      OneMoreOffer(offers, o);
      offers := offers + [o];
      if (f.0, neighbor, edge.id) !in visited' {
        visited' := visited' + {(f.0, neighbor, edge.id)};
        next' := next' + [(neighbor, f.1 + [edge])];
      }
    }
    assert neighbors[..|neighbors|] == neighbors;
  }

  // Follow one step from every node of the frontier, each edge between two nodes once.
  method StepOnce(g: Graph, step: TraversalStep, frontier: seq<Candidate>) returns (next: seq<Candidate>)
    ensures next == NextFrontier(g, step, frontier)
  {
    hide Firsts, OffersOf;
    next := [];
    var visited: set<Triple> := {};
    NothingOffered();
    for i := 0 to |frontier|
      invariant next == CandidatesOf(Firsts(Offers(g, step, frontier[..i])))
      invariant forall v :: v in visited <==> v in Hops(Firsts(Offers(g, step, frontier[..i])))
    {
      next, visited := PushNeighbours(g, step, frontier[i], next, visited, Offers(g, step, frontier[..i]));
      assert frontier[..i + 1][..i] == frontier[..i];
    }
    assert frontier[..|frontier|] == frontier;
  }

  lemma NothingOffered()
    ensures Firsts([]) == []
  {
  }

  ghost predicate Extends(g: Graph, step: TraversalStep, frontier: seq<Candidate>, c: Candidate) {
    exists f, e :: f in frontier && c.1 == f.1 + [e] && Hop(g, step, f.0, e, c.0)
  }

  ghost predicate Stepped(g: Graph, step: TraversalStep, frontier: seq<Candidate>, next: seq<Candidate>) {
    && (forall c :: c in next ==> Extends(g, step, frontier, c))
    && (forall f, e, y: u64 :: f in frontier && Hop(g, step, f.0, e, y) ==> Reaches(next, y))
  }

  // So every candidate extends one of the frontier, and every end point of a hop is reached.
  lemma NextSteps(g: Graph, step: TraversalStep, frontier: seq<Candidate>)
    ensures Stepped(g, step, frontier, NextFrontier(g, step, frontier))
  {
    hide NextFrontier;
    var next := NextFrontier(g, step, frontier);
    var hops := NextExact(g, step, frontier);
    forall c | c in next ensures Extends(g, step, frontier, c) {
      var m :| 0 <= m < |next| && next[m] == c;
      var i: nat, j: nat :| Chosen(g, step, frontier, Offer(hops[m], next[m]), i, j);
      assert frontier[i] in frontier && g.neighbours(hops[m].0, step)[j] in g.neighbours(hops[m].0, step);
    }
    forall f, e, y: u64 | f in frontier && Hop(g, step, f.0, e, y) ensures Reaches(next, y) {
      assert (y, e) in g.neighbours(f.0, step) && Leads(step, (y, e), y, e.id);
      assert CanHop(g, step, frontier, (f.0, y, e.id));
      var m :| 0 <= m < |hops| && hops[m] == (f.0, y, e.id);
      var i: nat, j: nat :| Chosen(g, step, frontier, Offer(hops[m], next[m]), i, j);
      assert next[m] in next;
    }
  }

  // ---- all steps ----

  lemma StepResolves(g: Graph, starts: seq<u64>, steps: seq<TraversalStep>, step: TraversalStep,
                     frontier: seq<Candidate>, next: seq<Candidate>)
    requires Resolved(g, starts, steps, frontier) && Stepped(g, step, frontier, next)
    ensures Resolved(g, starts, steps + [step], next)
  {
    hide Hop;
    var steps', n := steps + [step], |steps|;
    assert steps'[..n] == steps && steps'[n] == step;
    forall c | c in next ensures Led(g, starts, steps', c.1, c.0) {
      assert Extends(g, step, frontier, c);
      var f, e :| f in frontier && c.1 == f.1 + [e] && Hop(g, step, f.0, e, c.0);
      var x :| x in starts && x in g.nodes && Walk(g, steps, x, f.1, f.0);
      assert c.1[..n] == f.1;
      assert Walk(g, steps', x, c.1, c.0);
    }
    forall path, y | Led(g, starts, steps', path, y) ensures Reaches(next, y) {
      var x :| x in starts && x in g.nodes && Walk(g, steps', x, path, y);
      var m :| Walk(g, steps, x, path[..n], m) && Hop(g, step, m, path[n], y);
      assert Led(g, starts, steps, path[..n], m);
      assert Reaches(frontier, m);
      var f :| f in frontier && f.0 == m;
    }
  }

  // The start nodes that exist, each with an empty path.
  function Starting(g: Graph, starts: seq<u64>): seq<Candidate> {
    if starts == [] then []
    else Starting(g, starts[..|starts| - 1]) + if starts[|starts| - 1] in g.nodes then [(starts[|starts| - 1], [])] else []
  }

  lemma {:induction false} StartingMembers(g: Graph, starts: seq<u64>, c: Candidate)
    ensures c in Starting(g, starts) <==> c.0 in starts && c.0 in g.nodes && c.1 == []
  {
    if starts != [] {
      assert starts == starts[..|starts| - 1] + [starts[|starts| - 1]];
      StartingMembers(g, starts[..|starts| - 1], c);
    }
  }

  lemma StartResolves(g: Graph, starts: seq<u64>)
    ensures Resolved(g, starts, [], Starting(g, starts))
  {
    forall c | c in Starting(g, starts) ensures Led(g, starts, [], c.1, c.0) {
      StartingMembers(g, starts, c);
      assert Walk(g, [], c.0, c.1, c.0);
    }
    forall path, y | Led(g, starts, [], path, y) ensures Reaches(Starting(g, starts), y) {
      StartingMembers(g, starts, (y, []));
    }
  }

  // The frontier after all steps.
  function Frontier(g: Graph, starts: seq<u64>, steps: seq<TraversalStep>): seq<Candidate>
    decreases |steps|
  {
    if steps == [] then Starting(g, starts)
    else NextFrontier(g, steps[|steps| - 1], Frontier(g, starts, steps[..|steps| - 1]))
  }

  lemma {:induction false} FrontierResolves(g: Graph, starts: seq<u64>, steps: seq<TraversalStep>)
    ensures Resolved(g, starts, steps, Frontier(g, starts, steps))
    decreases |steps|
  {
    hide Resolved, Stepped, NextFrontier, Starting;
    if steps == [] {
      StartResolves(g, starts);
    } else {
      var front, last := steps[..|steps| - 1], steps[|steps| - 1];
      assert steps == front + [last];
      FrontierResolves(g, starts, front);
      NextSteps(g, last, Frontier(g, starts, front));
      StepResolves(g, starts, front, last, Frontier(g, starts, front), Frontier(g, starts, steps));
    }
  }

  // Once the frontier is empty it stays empty.
  lemma {:induction false} NothingFurther(g: Graph, starts: seq<u64>, steps: seq<TraversalStep>, k: nat)
    requires k <= |steps| && Frontier(g, starts, steps[..k]) == []
    ensures Frontier(g, starts, steps) == []
    decreases |steps|
  {
    if k == |steps| {
      assert steps[..k] == steps;
    } else {
      assert steps[..|steps| - 1][..k] == steps[..k];
      NothingFurther(g, starts, steps[..|steps| - 1], k);
    }
  }

  // All candidates that pass the node filters.
  function Passing(frontier: seq<Candidate>, passes: u64 -> bool): seq<Candidate> {
    if frontier == [] then []
    else
      var front, last := frontier[..|frontier| - 1], frontier[|frontier| - 1];
      Passing(front, passes) + if passes(last.0) then [last] else []
  }

  lemma {:induction false} PassingMembers(frontier: seq<Candidate>, passes: u64 -> bool, c: Candidate)
    ensures c in Passing(frontier, passes) <==> c in frontier && passes(c.0)
  {
    if frontier != [] {
      assert frontier == frontier[..|frontier| - 1] + [frontier[|frontier| - 1]];
      PassingMembers(frontier[..|frontier| - 1], passes, c);
    }
  }

  function Candidates(g: Graph, starts: seq<u64>, steps: seq<TraversalStep>, passes: u64 -> bool): seq<Candidate> {
    Passing(Frontier(g, starts, steps), passes)
  }

  // Each candidate is a walk over all steps, and every node such a walk ends at is there if it passes the
  // filters.
  lemma CandidatesLed(g: Graph, starts: seq<u64>, steps: seq<TraversalStep>, passes: u64 -> bool)
    ensures var candidates := Candidates(g, starts, steps, passes);
            && (forall c :: c in candidates ==> Led(g, starts, steps, c.1, c.0) && passes(c.0))
            && forall path, y :: Led(g, starts, steps, path, y) && passes(y) ==> Reaches(candidates, y)
  {
    hide Led, Frontier;
    var frontier := Frontier(g, starts, steps);
    FrontierResolves(g, starts, steps);
    forall c | c in Passing(frontier, passes) ensures Led(g, starts, steps, c.1, c.0) && passes(c.0) {
      PassingMembers(frontier, passes, c);
    }
    forall path, y | Led(g, starts, steps, path, y) && passes(y) ensures Reaches(Passing(frontier, passes), y) {
      var c :| c in frontier && c.0 == y;
      PassingMembers(frontier, passes, c);
    }
  }

  // A walk over all steps but the last can go on with this hop.
  ghost predicate LastHop(g: Graph, starts: seq<u64>, steps: seq<TraversalStep>, v: Triple)
    requires steps != []
  {
    var n := |steps| - 1;
    && (exists path :: Led(g, starts, steps[..n], path, v.0))
    && exists neighbor :: neighbor in g.neighbours(v.0, steps[n]) && Leads(steps[n], neighbor, v.1, v.2)
  }

  // The candidates are exactly as many as there are last hops whose end passes the filters: one for
  // each, however many walks lead there, with the first path to its first node.
  lemma CandidatesExact(g: Graph, starts: seq<u64>, steps: seq<TraversalStep>, passes: u64 -> bool)
    returns (hops: seq<Triple>)
    requires steps != []
    ensures var candidates, n := Candidates(g, starts, steps, passes), |steps| - 1;
            && |hops| == |candidates|
            && (forall i, j :: 0 <= i < j < |hops| ==> hops[i] != hops[j])
            && (forall v :: v in hops <==> LastHop(g, starts, steps, v) && passes(v.1))
            && forall m :: 0 <= m < |hops| ==>
                 FromFirst(g, steps[n], Frontier(g, starts, steps[..n]), Offer(hops[m], candidates[m]))
  {
    hide FromFirst, LastHop, CanHop, PassingPicks, NextFrontier;
    var n := |steps| - 1;
    var front := Frontier(g, starts, steps[..n]);
    var next := NextFrontier(g, steps[n], front);
    var all := NextExact(g, steps[n], front);
    var picks := PassingPicks(next, passes);
    PicksPass(next, passes);
    hops := seq(|picks|, m requires 0 <= m < |picks| => all[picks[m]]);
    forall m | 0 <= m < |next| ensures next[m].0 == all[m].1 {
      ChosenEnds(g, steps[n], front, Offer(all[m], next[m]));
    }
    forall i: nat ensures i in picks <==> i < |next| && passes(next[i].0) {
      PickedIff(next, passes, i);
    }
    forall v: Triple ensures v in hops <==> LastHop(g, starts, steps, v) && passes(v.1) {
      PickedHop(next, all, passes, picks, hops, v);
      HopsAreLast(g, starts, steps, v);
    }
  }

  lemma HopsAreLast(g: Graph, starts: seq<u64>, steps: seq<TraversalStep>, v: Triple)
    requires steps != []
    ensures LastHop(g, starts, steps, v)
       <==> CanHop(g, steps[|steps| - 1], Frontier(g, starts, steps[..|steps| - 1]), v)
  {
    hide Led, Leads, Frontier;
    FrontierResolves(g, starts, steps[..|steps| - 1]);
  }

  lemma PickedHop(next: seq<Candidate>, all: seq<Triple>, passes: u64 -> bool, picks: seq<nat>, hops: seq<Triple>,
                  v: Triple)
    requires |next| == |all| && forall m :: 0 <= m < |next| ==> next[m].0 == all[m].1
    requires forall i: nat :: i in picks <==> i < |next| && passes(next[i].0)
    requires |hops| == |picks| && forall m :: 0 <= m < |picks| ==> picks[m] < |all| && hops[m] == all[picks[m]]
    ensures v in hops <==> v in all && passes(v.1)
  {
    if v in hops {
      var m :| 0 <= m < |hops| && hops[m] == v;
      assert picks[m] in picks;
    }
    if v in all && passes(v.1) {
      var i :| 0 <= i < |all| && all[i] == v;
      assert i in picks;
      var m :| 0 <= m < |picks| && picks[m] == i;
      assert hops[m] == v;
    }
  }

  lemma ChosenEnds(g: Graph, step: TraversalStep, frontier: seq<Candidate>, o: Offer)
    requires FromFirst(g, step, frontier, o)
    ensures o.candidate.0 == o.hop.1
  {
  }

  // The places of those that pass, in order.
  function PassingPicks(frontier: seq<Candidate>, passes: u64 -> bool): seq<nat> {
    if frontier == [] then []
    else
      var n := |frontier| - 1;
      PassingPicks(frontier[..n], passes) + if passes(frontier[n].0) then [n] else []
  }

  lemma {:induction false} PicksPass(frontier: seq<Candidate>, passes: u64 -> bool)
    ensures var picks, passing := PassingPicks(frontier, passes), Passing(frontier, passes);
            && |picks| == |passing|
            && (forall m :: 0 <= m < |picks| ==> picks[m] < |frontier| && passing[m] == frontier[picks[m]])
            && (forall i, j :: 0 <= i < j < |picks| ==> picks[i] < picks[j])
  {
    if frontier != [] {
      PicksPass(frontier[..|frontier| - 1], passes);
    }
  }

  lemma {:induction false} PickedIff(frontier: seq<Candidate>, passes: u64 -> bool, i: nat)
    ensures i in PassingPicks(frontier, passes) <==> i < |frontier| && passes(frontier[i].0)
  {
    if frontier != [] {
      PickedIff(frontier[..|frontier| - 1], passes, i);
    }
  }

  // Follow all steps and filter what is reached.
  method ResolveCandidates(g: Graph, starts: seq<u64>, steps: seq<TraversalStep>, passes: u64 -> bool)
    returns (candidates: seq<Candidate>)
    ensures candidates == Candidates(g, starts, steps, passes)
  {
    hide NextFrontier, Starting;
    var frontier := Starting(g, starts);
    assert steps[..0] == [];
    for i := 0 to |steps|
      invariant frontier == Frontier(g, starts, steps[..i])
    {
      assert steps[..i + 1][..i] == steps[..i];
      frontier := StepOnce(g, steps[i], frontier);
      if |frontier| == 0 {
        NothingFurther(g, starts, steps, i + 1);
        break;
      }
    }
    assert steps[..|steps|] == steps;
    candidates := Passing(frontier, passes);
  }

  // The distinct end points.
  method CollectIds(g: Graph, starts: seq<u64>, steps: seq<TraversalStep>, passes: u64 -> bool) returns (ids: seq<u64>)
    ensures forall i, j :: 0 <= i < j < |ids| ==> ids[i] != ids[j]
    ensures forall y :: y in ids <==> passes(y) && exists path :: Led(g, starts, steps, path, y)
  {
    hide Led, Candidates;
    var candidates := ResolveCandidates(g, starts, steps, passes);
    CandidatesLed(g, starts, steps, passes);
    ids := [];
    var seen: set<u64> := {};
    for i := 0 to |candidates|
      invariant forall y :: y in seen <==> y in ids
      invariant forall y :: y in ids <==> exists k :: 0 <= k < i && candidates[k].0 == y
      invariant forall a, b :: 0 <= a < b < |ids| ==> ids[a] != ids[b]
    {
      if candidates[i].0 !in seen {
        seen := seen + {candidates[i].0};
        ids := ids + [candidates[i].0];
      }
    }
    forall y | y in ids ensures passes(y) && exists path :: Led(g, starts, steps, path, y) {
      var k :| 0 <= k < |candidates| && candidates[k].0 == y;
      assert candidates[k] in candidates;
    }
    forall y | passes(y) && exists path :: Led(g, starts, steps, path, y) ensures y in ids {
      assert Reaches(candidates, y);
    }
  }

  // ---- the bounded heap ----

  // A candidate with its node and score; paths ride along.
  datatype Match = Match(node: u64, score: real, path: seq<Edge>)

  // The order of eviction: lower scores go first, then lower ids.
  predicate Worse(a: Match, b: Match) {
    a.score < b.score || (a.score == b.score && a.node < b.node)
  }

  // pop of a heap whose top is the worst candidate.
  method PopWorst(heap: seq<Match>) returns (worst: Match, rest: seq<Match>)
    requires heap != []
    ensures multiset(heap) == multiset(rest) + multiset{worst}
    ensures forall m :: m in rest ==> !Worse(m, worst)
  {
    var k := 0;
    for i := 1 to |heap|
      invariant 0 <= k < i
      invariant forall j :: 0 <= j < i ==> !Worse(heap[j], heap[k])
    {
      if Worse(heap[i], heap[k]) {
        k := i;
      }
    }
    worst, rest := heap[k], heap[..k] + heap[k + 1..];
    assert heap == heap[..k] + [heap[k]] + heap[k + 1..];
  }

  // No dropped candidate is better than a kept one.
  ghost predicate KeepsBest(all: multiset<Match>, kept: multiset<Match>, k: nat) {
    && kept <= all
    && |kept| == (if |all| < k then |all| else k)
    && forall a, b :: a in kept && b in all - kept ==> !Worse(a, b)
  }

  // Push one more candidate, evicting the worst when there are more than k.
  method PushBounded(heap: seq<Match>, c: Match, k: nat, ghost all: multiset<Match>) returns (heap': seq<Match>)
    requires KeepsBest(all, multiset(heap), k)
    ensures KeepsBest(all + multiset{c}, multiset(heap'), k)
  {
    ghost var kept := multiset(heap);
    heap' := heap + [c];
    if |heap'| > k {
      var worst;
      worst, heap' := PopWorst(heap');
      Evicted(all, kept, c, worst, multiset(heap'), k);
    } else {
      NothingDropped(all, kept, c, k);
    }
  }

  lemma NothingDropped(all: multiset<Match>, kept: multiset<Match>, c: Match, k: nat)
    requires KeepsBest(all, kept, k) && |kept| + 1 <= k
    ensures KeepsBest(all + multiset{c}, kept + multiset{c}, k)
  {
    SameSize(all, kept);
  }

  lemma SameSize(all: multiset<Match>, kept: multiset<Match>)
    requires kept <= all
    ensures |all| == |kept| ==> all == kept
    ensures |all| == |kept| + |all - kept|
  {
    assert all == kept + (all - kept);
  }

  lemma Evicted(all: multiset<Match>, kept: multiset<Match>, c: Match, worst: Match, rest: multiset<Match>, k: nat)
    requires KeepsBest(all, kept, k) && |kept| == k
    requires kept + multiset{c} == rest + multiset{worst}
    requires forall m :: m in rest ==> !Worse(m, worst)
    ensures KeepsBest(all + multiset{c}, rest, k)
  {
    var all' := all + multiset{c};
    assert |kept + multiset{c}| == |rest + multiset{worst}|;
    SameSize(all, kept);
    Rearranged(all, kept, c, worst, rest);
    forall a, b | a in rest && b in all' - rest ensures !Worse(a, b) {
      if b != worst {
        assert b in all - kept;
        if a !in kept {
          assert !Worse(worst, b) && !Worse(a, worst);
        }
      }
    }
  }

  lemma Rearranged(all: multiset<Match>, kept: multiset<Match>, c: Match, worst: Match, rest: multiset<Match>)
    requires kept <= all && kept + multiset{c} == rest + multiset{worst}
    ensures rest <= all + multiset{c} && all + multiset{c} - rest == all - kept + multiset{worst}
    ensures forall a :: a in rest && a !in kept ==> a == c && worst in kept
  {
    assert rest == kept + multiset{c} - multiset{worst};
    forall m: Match ensures rest[m] + multiset{worst}[m] == kept[m] + multiset{c}[m] {
      assert (rest + multiset{worst})[m] == (kept + multiset{c})[m];
    }
    forall a | a in rest && a !in kept ensures a == c && worst in kept {
      assert rest[a] + multiset{worst}[a] == kept[a] + multiset{c}[a];
      assert rest[worst] + multiset{worst}[worst] == kept[worst] + multiset{c}[worst];
    }
  }

  // ---- ranking the candidates ----

  ghost predicate Descending(s: seq<Match>) {
    forall i, j :: 0 <= i < j < |s| ==> s[i].score >= s[j].score
  }

  function PlacedByScore(s: seq<Match>, m: Match): seq<Match> {
    if s == [] || s[|s| - 1].score >= m.score then s + [m] else PlacedByScore(s[..|s| - 1], m) + [s[|s| - 1]]
  }

  // sort_by descending score, equal scores in the order in which they come.
  function SortedByScore(s: seq<Match>): seq<Match> {
    if s == [] then [] else PlacedByScore(SortedByScore(s[..|s| - 1]), s[|s| - 1])
  }

  lemma {:induction false} PlacedMembers(s: seq<Match>, m: Match)
    ensures multiset(PlacedByScore(s, m)) == multiset(s) + multiset{m}
    ensures forall x :: x in PlacedByScore(s, m) ==> x == m || x in s
  {
    if s != [] && s[|s| - 1].score < m.score {
      var front, last := s[..|s| - 1], s[|s| - 1];
      assert s == front + [last];
      PlacedMembers(front, m);
    }
  }

  lemma {:induction false} PlacedDescends(s: seq<Match>, m: Match)
    requires Descending(s)
    ensures Descending(PlacedByScore(s, m))
  {
    if s != [] && s[|s| - 1].score < m.score {
      var front, last := s[..|s| - 1], s[|s| - 1];
      PlacedDescends(front, m);
      PlacedMembers(front, m);
      var r := PlacedByScore(front, m);
      forall i | 0 <= i < |r| ensures r[i].score >= last.score {
        assert r[i] in r;
        if r[i] != m {
          var j :| 0 <= j < |front| && front[j] == r[i];
          assert s[j].score >= s[|s| - 1].score;
        }
      }
    } else if s != [] {
      forall i | 0 <= i < |s| ensures s[i].score >= m.score {
        assert i < |s| - 1 ==> s[i].score >= s[|s| - 1].score;
      }
    }
  }

  lemma {:induction false} SortedDescends(s: seq<Match>)
    ensures Descending(SortedByScore(s)) && multiset(SortedByScore(s)) == multiset(s)
  {
    if s != [] {
      assert s == s[..|s| - 1] + [s[|s| - 1]];
      SortedDescends(s[..|s| - 1]);
      PlacedDescends(SortedByScore(s[..|s| - 1]), s[|s| - 1]);
      PlacedMembers(SortedByScore(s[..|s| - 1]), s[|s| - 1]);
    }
  }

  // What a query compares: nodes with a vector of the query's length.
  datatype Measure = Measure(vector: u64 -> Option<seq<real>>, query: seq<real>, similarity: (seq<real>, seq<real>) -> real)
  {
    predicate Compares(node: u64) {
      vector(node).Some? && |vector(node).value| == |query|
    }

    function Score(node: u64): real
      requires Compares(node)
    {
      similarity(query, vector(node).value)
    }
  }

  // The candidates with a score, in order.
  function ScoredBy(candidates: seq<Candidate>, ms: Measure): seq<Match> {
    if candidates == [] then []
    else
      var (node, path) := candidates[|candidates| - 1];
      ScoredBy(candidates[..|candidates| - 1], ms)
      + if ms.Compares(node) then [Match(node, ms.Score(node), path)] else []
  }

  lemma {:induction false} ScoredMembers(candidates: seq<Candidate>, ms: Measure, m: Match)
    ensures m in ScoredBy(candidates, ms)
       <==> (m.node, m.path) in candidates && ms.Compares(m.node) && m.score == ms.Score(m.node)
  {
    if candidates != [] {
      var front, last := candidates[..|candidates| - 1], candidates[|candidates| - 1];
      assert candidates == front + [last];
      ScoredMembers(front, ms, m);
      assert last == (last.0, last.1) && ((m.node, m.path) == last <==> m.node == last.0 && m.path == last.1);
    }
  }

  lemma {:induction false} ScoredCount(candidates: seq<Candidate>, ms: Measure)
    ensures |ScoredBy(candidates, ms)| == |Passing(candidates, ms.Compares)|
  {
    if candidates != [] {
      ScoredCount(candidates[..|candidates| - 1], ms);
    }
  }

  // What the results then are: walks that pass the filters with their own scores, and every end point
  // that is comparable is either listed or no better than any of k results.
  ghost predicate Nearest(g: Graph, starts: seq<u64>, steps: seq<TraversalStep>, passes: u64 -> bool, ms: Measure,
                          k: nat, results: seq<Match>)
  {
    && (forall m :: m in results ==>
          Led(g, starts, steps, m.path, m.node) && passes(m.node) && ms.Compares(m.node) && m.score == ms.Score(m.node))
    && (forall path, y :: Led(g, starts, steps, path, y) && passes(y) && ms.Compares(y) ==>
          || (exists m :: m in results && m.node == y)
          || (|results| == k
              && forall m :: m in results ==> m.score > ms.Score(y) || (m.score == ms.Score(y) && m.node >= y)))
  }

  // The k candidates most similar to a query, or all that can be compared with it.
  method VectorNear(g: Graph, starts: seq<u64>, steps: seq<TraversalStep>, passes: u64 -> bool, ms: Measure, k: nat)
    returns (results: seq<Match>)
    ensures Descending(results)
    ensures var candidates := Candidates(g, starts, steps, passes);
            var comparable := |Passing(candidates, ms.Compares)|;
            && |results| == (if comparable < k then comparable else k)
            && KeepsBest(multiset(ScoredBy(candidates, ms)), multiset(results), k)
    ensures Nearest(g, starts, steps, passes, ms, k, results)
  {
    hide Candidates, Nearest, KeepsBest, SortedByScore, Passing, ScoredBy;
    ghost var all := Candidates(g, starts, steps, passes);
    ScoredCount(all, ms);
    if k == 0 {
      NoneKept(multiset(ScoredBy(all, ms)));
      results := [];
    } else {
      var candidates := ResolveCandidates(g, starts, steps, passes);
      var heap := ScoreCandidates(candidates, ms, k);
      results := SortedByScore(heap);
      SortedDescends(heap);
    }
    KeptIsNearest(g, starts, steps, passes, ms, k, results);
    ResultCount(ScoredBy(all, ms), results, k);
  }

  // The loop over the candidates: score those that can be compared, and keep the best.
  method ScoreCandidates(candidates: seq<Candidate>, ms: Measure, k: nat) returns (heap: seq<Match>)
    ensures KeepsBest(multiset(ScoredBy(candidates, ms)), multiset(heap), k)
  {
    hide KeepsBest, ScoredBy;
    heap := [];
    NothingScored(ms);
    NoneKept(multiset([]));
    assert candidates[..0] == [];
    for i := 0 to |candidates|
      invariant KeepsBest(multiset(ScoredBy(candidates[..i], ms)), multiset(heap), k)
    {
      OneMoreScored(candidates, i, ms);
      var (node, path) := candidates[i];
      var vector := ms.vector(node);
      ghost var all := multiset(ScoredBy(candidates[..i], ms));
      assert all + multiset{} == all;
      if vector.None? {
        continue;
      }
      if |vector.value| != |ms.query| {
        continue;
      }
      heap := PushBounded(heap, Match(node, ms.similarity(ms.query, vector.value), path), k, all);
    }
    assert candidates[..|candidates|] == candidates;
  }

  lemma OneMoreScored(candidates: seq<Candidate>, i: nat, ms: Measure)
    requires i < |candidates|
    ensures multiset(ScoredBy(candidates[..i + 1], ms)) == multiset(ScoredBy(candidates[..i], ms)) + OwnMatch(candidates[i], ms)
  {
    assert candidates[..i + 1][..i] == candidates[..i];
    var before, c := ScoredBy(candidates[..i], ms), candidates[i];
    assert ScoredBy(candidates[..i + 1], ms) == before + if ms.Compares(c.0) then [Match(c.0, ms.Score(c.0), c.1)] else [];
  }

  lemma NothingScored(ms: Measure)
    ensures ScoredBy([], ms) == []
  {
  }

  ghost function OwnMatch(c: Candidate, ms: Measure): multiset<Match> {
    if ms.Compares(c.0) then multiset{Match(c.0, ms.Score(c.0), c.1)} else multiset{}
  }

  lemma NoneKept(all: multiset<Match>)
    ensures KeepsBest(all, multiset{}, 0)
    ensures forall k :: KeepsBest(multiset{}, multiset{}, k)
  {
  }

  lemma KeptIsNearest(g: Graph, starts: seq<u64>, steps: seq<TraversalStep>, passes: u64 -> bool, ms: Measure, k: nat,
                      results: seq<Match>)
    requires KeepsBest(multiset(ScoredBy(Candidates(g, starts, steps, passes), ms)), multiset(results), k)
    ensures Nearest(g, starts, steps, passes, ms, k, results)
  {
    hide Led, KeepsBest, Candidates;
    var candidates := Candidates(g, starts, steps, passes);
    var scored := ScoredBy(candidates, ms);
    CandidatesLed(g, starts, steps, passes);
    forall m | m in results
      ensures Led(g, starts, steps, m.path, m.node) && passes(m.node) && ms.Compares(m.node) && m.score == ms.Score(m.node)
    {
      KeptIsScored(scored, results, k, m);
      ScoredMembers(candidates, ms, m);
    }
    forall path, y | Led(g, starts, steps, path, y) && passes(y) && ms.Compares(y)
      ensures (exists m :: m in results && m.node == y)
           || (|results| == k
               && forall m :: m in results ==> m.score > ms.Score(y) || (m.score == ms.Score(y) && m.node >= y))
    {
      assert Reaches(candidates, y);
      var c :| c in candidates && c.0 == y;
      ScoredMembers(candidates, ms, Match(y, ms.Score(y), c.1));
      DroppedIsNoBetter(scored, results, k, Match(y, ms.Score(y), c.1));
    }
  }

  lemma ResultCount(scored: seq<Match>, results: seq<Match>, k: nat)
    requires KeepsBest(multiset(scored), multiset(results), k)
    ensures |results| == if |scored| < k then |scored| else k
  {
    assert |results| == |multiset(results)| && |scored| == |multiset(scored)|;
  }

  lemma KeptIsScored(scored: seq<Match>, results: seq<Match>, k: nat, m: Match)
    requires KeepsBest(multiset(scored), multiset(results), k) && m in results
    ensures m in scored
  {
    assert m in multiset(results) && m in multiset(scored);
  }

  // A scored candidate is among the results, or there are k of them and none is worse.
  lemma DroppedIsNoBetter(scored: seq<Match>, results: seq<Match>, k: nat, c: Match)
    requires KeepsBest(multiset(scored), multiset(results), k) && c in scored
    ensures c in results || (|results| == k && forall m :: m in results ==> !Worse(m, c))
  {
    var all, kept := multiset(scored), multiset(results);
    ResultCount(scored, results, k);
    if c !in results {
      assert c !in kept by {
        assert c in kept <==> c in multiset(results);
      }
      assert c in all - kept;
      SameSize(all, kept);
      forall m | m in results ensures !Worse(m, c) {
        assert m in multiset(results) && m in kept;
      }
    }
  }
}
