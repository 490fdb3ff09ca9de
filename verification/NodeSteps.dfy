// From the outcome of inserting into a kid to the outcome for its parent: pages,
// overflow and page accounts of a stored interior node.
module NodeSteps {
  import opened Bytes
  import opened Cells
  import opened Pages
  import opened OverflowChains
  import opened TreeModel
  import opened TreeInsertion
  import opened StoredTrees
  import opened LeafInsertion
  import opened InteriorNodes

  lemma OwnedByNode(s: Stored)
    requires s.StoredNode?
    ensures Owned(s) == {s.id} + OwnedByKids(s.kids)
  {
  }

  lemma OwnedByKid(kids: seq<Stored>, i: nat)
    requires i < |kids|
    ensures Owned(kids[i]) <= OwnedByKids(kids)
  {
  }

  // What the step into kid i of s relies on.
  ghost predicate NodeReady(pages: PageMap, used: set<PageId>, s: Stored, r: Row, i: nat, pageSize: nat) {
    && s.StoredNode? && i < |s.kids| == |s.seps| + 1
    && OnPages(pages, s, pageSize) && Separate(s) && Owned(s) <= used
    && Ids(r.spill) <= used && Ids(r.spill) !! Owned(s)
  }

  lemma NodeReadyFacts(pages: PageMap, used: set<PageId>, s: Stored, r: Row, i: nat, pageSize: nat)
    requires NodeReady(pages, used, s, r, i, pageSize)
    ensures s.StoredNode? && i < |s.kids| == |s.seps| + 1
    ensures s.id in used && s.id !in OwnedByKids(s.kids) && KidsApart(s.kids)
    ensures Owned(s) == {s.id} + OwnedByKids(s.kids) && OwnedByKids(s.kids) <= used
    ensures Ids(r.spill) <= used && Ids(r.spill) !! OwnedByKids(s.kids) && s.id !in Ids(r.spill)
    ensures NodeAt(pages, s.id, s.kids, s.seps, pageSize)
    ensures forall k :: 0 <= k < |s.kids| ==>
      OnPages(pages, s.kids[k], pageSize) && Separate(s.kids[k]) && Owned(s.kids[k]) <= OwnedByKids(s.kids)
  {
    hide InteriorPage, SeparatorBytes;
  }

  // The pages around node id between the kid's step and the end of the node's own step.
  ghost predicate NodeChanged(pages: PageMap, used: set<PageId>, pages': PageMap, used': set<PageId>, id: PageId,
                              more: set<PageId>)
  {
    && used' == used + more && more !! used
    && forall x :: x in used && x != id && x in pages ==> x in pages' && pages'[x] == pages[x]
  }

  // A subtree that may hang below the changed node.
  ghost predicate Hangs(used: set<PageId>, pages2: PageMap, used2: set<PageId>, s: Stored, m: Stored, pageSize: nat) {
    OnPages(pages2, m, pageSize) && Nodes(m) <= used2 && Nodes(m) !! used - Owned(s) && s.id !in Nodes(m)
  }

  ghost predicate HangsKept(used: set<PageId>, pages2: PageMap, used2: set<PageId>, s: Stored, r: Row, m: Stored) {
    Spilled(pages2, m) && Owned(m) <= used2 && Owned(m) !! used - Owned(s) - Ids(r.spill) && s.id !in Owned(m)
  }

  // The other kids are where they were.
  lemma SiblingHangs(pages: PageMap, used: set<PageId>, s: Stored, r: Row, i: nat, pageSize: nat,
                     oc: StoredOutcome, pages1: PageMap, used1: set<PageId>, pages2: PageMap, used2: set<PageId>,
                     more: set<PageId>, k: nat)
    requires NodeReady(pages, used, s, r, i, pageSize)
    requires Placed(pages, used, pages1, used1, s.kids[i], oc, pageSize)
    requires NodeChanged(pages1, used1, pages2, used2, s.id, more)
    requires k < |s.kids| && k != i
    ensures Hangs(used, pages2, used2, s, s.kids[k], pageSize)
    ensures Spilled(pages, s) ==> HangsKept(used, pages2, used2, s, r, s.kids[k])
  {
    hide OnPages, Spilled, Separate, Owned, Nodes, Below, OwnedBelow, NodeReady, NodeAt, OwnedByKids;
    NodeReadyFacts(pages, used, s, r, i, pageSize);
    var m := s.kids[k];
    OwnedByKid(s.kids, i);
    NodesAreOwned(m);
    SiblingApart(s.kids, i, k);
    assert Agree(pages, pages2, Owned(m));
    OnPagesFrame(pages, pages2, m, pageSize);
    if Spilled(pages, s) {
      SpilledKid(pages, s, k);
      SpilledFrame(pages, pages2, m);
    }
  }

  lemma SpilledKid(pages: PageMap, s: Stored, k: nat)
    requires s.StoredNode? && k < |s.kids| && Spilled(pages, s)
    ensures Spilled(pages, s.kids[k])
  {
  }

  lemma SiblingApart(kids: seq<Stored>, i: nat, k: nat)
    requires KidsApart(kids) && i < |kids| && k < |kids| && k != i
    ensures Owned(kids[k]) !! Owned(kids[i])
  {
    hide Owned;
  }

  // The halves of the kid hang below the node as well.
  lemma HalfHangs(pages: PageMap, used: set<PageId>, s: Stored, r: Row, i: nat, pageSize: nat, oc: StoredOutcome,
                  pages1: PageMap, used1: set<PageId>, pages2: PageMap, used2: set<PageId>, more: set<PageId>,
                  m: Stored)
    requires NodeReady(pages, used, s, r, i, pageSize)
    requires Placed(pages, used, pages1, used1, s.kids[i], oc, pageSize)
    requires NodeChanged(pages1, used1, pages2, used2, s.id, more)
    requires m == oc.tree || (oc.TwoTrees? && m == oc.right)
    ensures Hangs(used, pages2, used2, s, m, pageSize)
    ensures Kept(used, pages1, used1, s.kids[i], r, oc) ==> HangsKept(used, pages2, used2, s, r, m)
  {
    hide OnPages, Spilled, Separate, Owned, Nodes, Below, OwnedBelow, NodeReady, NodeAt, OwnedByKids;
    NodeReadyFacts(pages, used, s, r, i, pageSize);
    OwnedByKid(s.kids, i);
    assert Agree(pages1, pages2, Nodes(m));
    OnPagesFrame(pages1, pages2, m, pageSize);
    if Kept(used, pages1, used1, s.kids[i], r, oc) {
      assert Agree(pages1, pages2, Owned(m));
      SpilledFrame(pages1, pages2, m);
    }
  }

  // Every kid of the changed node is one of these.
  ghost predicate KnownKid(s: Stored, i: nat, oc: StoredOutcome, m: Stored)
    requires s.StoredNode?
  {
    || m == oc.tree || (oc.TwoTrees? && m == oc.right)
    || exists k :: 0 <= k < |s.kids| && k != i && m == s.kids[k]
  }

  lemma KnownHangs(pages: PageMap, used: set<PageId>, s: Stored, r: Row, i: nat, pageSize: nat, oc: StoredOutcome,
                   pages1: PageMap, used1: set<PageId>, pages2: PageMap, used2: set<PageId>, more: set<PageId>,
                   m: Stored)
    requires NodeReady(pages, used, s, r, i, pageSize)
    requires Placed(pages, used, pages1, used1, s.kids[i], oc, pageSize)
    requires NodeChanged(pages1, used1, pages2, used2, s.id, more)
    requires KnownKid(s, i, oc, m)
    ensures Hangs(used, pages2, used2, s, m, pageSize)
    ensures Spilled(pages, s) && Kept(used, pages1, used1, s.kids[i], r, oc) ==> HangsKept(used, pages2, used2, s, r, m)
  {
    hide NodeReady, Placed, NodeChanged, Hangs, HangsKept, Kept, Spilled, OwnedByKids, KidsApart, OnPages, Separate,
         Owned, NodeAt;
    NodeReadyFacts(pages, used, s, r, i, pageSize);
    if m == oc.tree || (oc.TwoTrees? && m == oc.right) {
      HalfHangs(pages, used, s, r, i, pageSize, oc, pages1, used1, pages2, used2, more, m);
    } else {
      var k :| 0 <= k < |s.kids| && k != i && m == s.kids[k];
      SiblingHangs(pages, used, s, r, i, pageSize, oc, pages1, used1, pages2, used2, more, k);
    }
  }

  // A node built from known kids is on its pages and keeps their overflow.
  lemma BuiltOnPages(used: set<PageId>, pages2: PageMap, used2: set<PageId>, s: Stored, node: Stored, pageSize: nat)
    requires node.StoredNode? && NodeAt(pages2, node.id, node.kids, node.seps, pageSize)
    requires node.id in used2 && node.id !in used - Owned(s)
    requires forall m :: m in node.kids ==> Hangs(used, pages2, used2, s, m, pageSize)
    ensures OnPages(pages2, node, pageSize) && Nodes(node) <= used2 && Nodes(node) !! used - Owned(s)
    ensures s.id !in Below(node) && (node.id != s.id ==> s.id !in Nodes(node))
  {
    hide NodeAt, Owned, Hangs, Nodes, Below, OnPages;
    forall k | 0 <= k < |node.kids|
      ensures OnPages(pages2, node.kids[k], pageSize)
      ensures Nodes(node.kids[k]) <= used2 - (used - Owned(s)) - {s.id}
    {
      HangsFacts(used, pages2, used2, s, node.kids[k], pageSize);
    }
    NodeOnPages(pages2, node, pageSize);
    NodesBound(node, used2 - (used - Owned(s)) - {s.id});
  }

  lemma NodeOnPages(pages: PageMap, node: Stored, pageSize: nat)
    requires node.StoredNode? && NodeAt(pages, node.id, node.kids, node.seps, pageSize)
    requires forall k :: 0 <= k < |node.kids| ==> OnPages(pages, node.kids[k], pageSize)
    ensures OnPages(pages, node, pageSize)
  {
    hide NodeAt, NodeOnPage;
    NodeAtIsOnPage(pages, node.id, node.kids, node.seps, pageSize);
  }

  lemma NodeAtIsOnPage(pages: PageMap, id: PageId, kids: seq<Stored>, seps: seq<u64>, pageSize: nat)
    requires NodeAt(pages, id, kids, seps, pageSize)
    ensures NodeOnPage(pages, id, kids, seps, pageSize)
  {
    hide InteriorPage, SeparatorBytes;
  }

  lemma NodesBound(node: Stored, bound: set<PageId>)
    requires node.StoredNode?
    requires forall k :: 0 <= k < |node.kids| ==> Nodes(node.kids[k]) <= bound
    ensures Below(node) <= bound && Nodes(node) <= {node.id} + bound
  {
  }

  lemma HangsFacts(used: set<PageId>, pages2: PageMap, used2: set<PageId>, s: Stored, m: Stored, pageSize: nat)
    requires Hangs(used, pages2, used2, s, m, pageSize)
    ensures OnPages(pages2, m, pageSize) && Nodes(m) <= used2 && Nodes(m) !! used - Owned(s) && s.id !in Nodes(m)
  {
    hide OnPages, Nodes, Owned;
  }

  lemma BuiltSpilled(used: set<PageId>, pages2: PageMap, used2: set<PageId>, s: Stored, r: Row, node: Stored)
    requires node.StoredNode? && node.id in used2 && node.id !in used - Owned(s)
    requires forall m :: m in node.kids ==> HangsKept(used, pages2, used2, s, r, m)
    ensures Spilled(pages2, node) && Owned(node) <= used2 && Owned(node) !! used - Owned(s) - Ids(r.spill)
    ensures s.id !in OwnedBelow(node) && (node.id != s.id ==> s.id !in Owned(node))
  {
    hide HangsKept, Ids;
    var own := Owned(s);
    forall k | 0 <= k < |node.kids|
      ensures Spilled(pages2, node.kids[k])
      ensures Owned(node.kids[k]) <= used2 && Owned(node.kids[k]) !! used - own - Ids(r.spill) && s.id !in Owned(node.kids[k])
    {
      HangsKeptFacts(used, pages2, used2, s, r, node.kids[k]);
    }
    OwnedByNode(node);
  }

  lemma HangsKeptFacts(used: set<PageId>, pages2: PageMap, used2: set<PageId>, s: Stored, r: Row, m: Stored)
    requires HangsKept(used, pages2, used2, s, r, m)
    ensures Spilled(pages2, m) && Owned(m) <= used2 && Owned(m) !! used - Owned(s) - Ids(r.spill) && s.id !in Owned(m)
  {
    hide Spilled, Owned;
  }

  // A node of the outcome: on its page, over known kids.
  ghost predicate NodePart(pages2: PageMap, s: Stored, i: nat, oc: StoredOutcome, node: Stored, pageSize: nat)
    requires s.StoredNode?
  {
    && node.StoredNode? && NodeAt(pages2, node.id, node.kids, node.seps, pageSize)
    && forall m :: m in node.kids ==> KnownKid(s, i, oc, m)
  }

  lemma PartPlaced(pages: PageMap, used: set<PageId>, s: Stored, r: Row, i: nat, pageSize: nat, oc: StoredOutcome,
                   pages1: PageMap, used1: set<PageId>, pages2: PageMap, used2: set<PageId>, more: set<PageId>,
                   node: Stored)
    requires NodeReady(pages, used, s, r, i, pageSize)
    requires Placed(pages, used, pages1, used1, s.kids[i], oc, pageSize)
    requires NodeChanged(pages1, used1, pages2, used2, s.id, more)
    requires NodePart(pages2, s, i, oc, node, pageSize) && (node.id == s.id || node.id in more)
    ensures OnPages(pages2, node, pageSize) && Nodes(node) <= used2 && Nodes(node) !! used - Owned(s)
    ensures s.id !in Below(node) && (node.id != s.id ==> s.id !in Nodes(node))
    ensures Spilled(pages, s) && Kept(used, pages1, used1, s.kids[i], r, oc) ==>
      && Spilled(pages2, node) && Owned(node) <= used2 && Owned(node) !! used - Owned(s) - Ids(r.spill)
      && s.id !in OwnedBelow(node) && (node.id != s.id ==> s.id !in Owned(node))
  {
    hide NodeReady, Hangs, HangsKept, KnownKid, Kept, Below, OwnedBelow, Spilled, OnPages, Owned, Nodes, NodeAt,
         OwnedByKids, KidsApart, Separate;
    NodeReadyFacts(pages, used, s, r, i, pageSize);
    OwnedByKid(s.kids, i);
    forall m | m in node.kids
      ensures Hangs(used, pages2, used2, s, m, pageSize)
      ensures Spilled(pages, s) && Kept(used, pages1, used1, s.kids[i], r, oc) ==> HangsKept(used, pages2, used2, s, r, m)
    {
      KnownHangs(pages, used, s, r, i, pageSize, oc, pages1, used1, pages2, used2, more, m);
    }
    BuiltOnPages(used, pages2, used2, s, node, pageSize);
    if Spilled(pages, s) && Kept(used, pages1, used1, s.kids[i], r, oc) {
      BuiltSpilled(used, pages2, used2, s, r, node);
    }
  }

  // The outcome for the parent: everything else is left alone, and overflow is kept when the kid kept it.
  lemma NodePlaced(pages: PageMap, used: set<PageId>, s: Stored, r: Row, i: nat, pageSize: nat, oc: StoredOutcome,
                   pages1: PageMap, used1: set<PageId>, pages2: PageMap, used2: set<PageId>, more: set<PageId>,
                   o: StoredOutcome)
    requires NodeReady(pages, used, s, r, i, pageSize)
    requires Placed(pages, used, pages1, used1, s.kids[i], oc, pageSize)
    requires NodeChanged(pages1, used1, pages2, used2, s.id, more)
    requires o.tree.id == s.id && NodePart(pages2, s, i, oc, o.tree, pageSize)
    requires o.TwoTrees? ==> o.right.id in more && NodePart(pages2, s, i, oc, o.right, pageSize)
    ensures Placed(pages, used, pages2, used2, s, o, pageSize)
    ensures Spilled(pages, s) && Kept(used, pages1, used1, s.kids[i], r, oc) ==> Kept(used, pages2, used2, s, r, o)
  {
    hide NodeReady, NodePart, Spilled, OnPages, Owned, Nodes, Below, OwnedBelow, OwnedByKids, KidsApart, Separate,
         NodeAt, Ids;
    NodeReadyFacts(pages, used, s, r, i, pageSize);
    OwnedByKid(s.kids, i);
    PartPlaced(pages, used, s, r, i, pageSize, oc, pages1, used1, pages2, used2, more, o.tree);
    if o.TwoTrees? {
      PartPlaced(pages, used, s, r, i, pageSize, oc, pages1, used1, pages2, used2, more, o.right);
    }
  }

  // ---- page accounts ----

  lemma DividedAccounts(kids: seq<Stored>, i: nat, left: Stored, right: Stored)
    requires i < |kids| && KidsApart(kids) && Owned(left) !! Owned(right)
    requires (Owned(left) + Owned(right)) !! OwnedByKids(kids) - Owned(kids[i])
    ensures KidsApart(Divided(kids, i, left, right))
    ensures OwnedByKids(Divided(kids, i, left, right)) == OwnedByKids(kids) - Owned(kids[i]) + Owned(left) + Owned(right)
  {
    hide Owned;
    var kids' := Divided(kids, i, left, right);
    forall k | 0 <= k < |kids| && k != i ensures Owned(kids[k]) <= OwnedByKids(kids) - Owned(kids[i]) {
      SiblingApart(kids, i, k);
    }
    forall a, b | 0 <= a < b < |kids'| ensures Owned(kids'[a]) !! Owned(kids'[b]) {
      if a != i && a != i + 1 && b != i && b != i + 1 {
        var a', b' := if a < i then a else a - 1, if b < i then b else b - 1;
        SiblingApart(kids, a', b');
      }
    }
    DividedOwned(kids, i, left, right);
  }

  lemma DividedOwned(kids: seq<Stored>, i: nat, left: Stored, right: Stored)
    requires i < |kids| && KidsApart(kids)
    ensures OwnedByKids(Divided(kids, i, left, right)) == OwnedByKids(kids) - Owned(kids[i]) + Owned(left) + Owned(right)
  {
    hide Owned;
    var kids' := Divided(kids, i, left, right);
    forall p | p in OwnedByKids(kids) - Owned(kids[i]) ensures p in OwnedByKids(kids') {
      var k :| 0 <= k < |kids| && p in Owned(kids[k]);
      assert kids'[if k < i then k else k + 1] == kids[k];
    }
    assert kids'[i] == left && kids'[i + 1] == right;
    forall p | p in OwnedByKids(kids')
      ensures p in OwnedByKids(kids) - Owned(kids[i]) + Owned(left) + Owned(right)
    {
      var k :| 0 <= k < |kids'| && p in Owned(kids'[k]);
      if k != i && k != i + 1 {
        var k' := if k < i then k else k - 1;
        assert kids'[k] == kids[k'];
        SiblingApart(kids, i, k');
      }
    }
  }

  lemma ReplacedAccounts(kids: seq<Stored>, i: nat, kid: Stored)
    requires i < |kids| && KidsApart(kids)
    requires Owned(kid) !! OwnedByKids(kids) - Owned(kids[i])
    ensures KidsApart(kids[i := kid])
    ensures OwnedByKids(kids[i := kid]) == OwnedByKids(kids) - Owned(kids[i]) + Owned(kid)
  {
    hide Owned;
    var kids' := kids[i := kid];
    forall k | 0 <= k < |kids| && k != i ensures Owned(kids[k]) <= OwnedByKids(kids) - Owned(kids[i]) {
      SiblingApart(kids, i, k);
    }
    forall a, b | 0 <= a < b < |kids'| ensures Owned(kids'[a]) !! Owned(kids'[b]) {
      if a != i && b != i {
        SiblingApart(kids, a, b);
      }
    }
    forall p | p in OwnedByKids(kids) - Owned(kids[i]) ensures p in OwnedByKids(kids') {
      var k :| 0 <= k < |kids| && p in Owned(kids[k]);
      assert kids'[k] == kids[k];
    }
    assert kids'[i] == kid;
  }

  lemma PartsApart(kids: seq<Stored>, m: nat)
    requires KidsApart(kids) && m <= |kids|
    ensures KidsApart(kids[..m]) && KidsApart(kids[m..])
    ensures OwnedByKids(kids[..m]) !! OwnedByKids(kids[m..])
    ensures OwnedByKids(kids[..m]) + OwnedByKids(kids[m..]) == OwnedByKids(kids)
  {
    hide Owned;
    forall p | p in OwnedByKids(kids) ensures p in OwnedByKids(kids[..m]) + OwnedByKids(kids[m..]) {
      var k :| 0 <= k < |kids| && p in Owned(kids[k]);
      if k < m {
        assert kids[..m][k] == kids[k];
      } else {
        assert kids[m..][k - m] == kids[k];
      }
    }
    forall p | p in OwnedByKids(kids[..m]) ensures p !in OwnedByKids(kids[m..]) {
      var a :| 0 <= a < m && p in Owned(kids[..m][a]);
      forall b | m <= b < |kids| ensures p !in Owned(kids[b]) {
        SiblingApart(kids, a, b);
      }
    }
  }

  // Pages in use, of all kids, of kid i, of the new row, of the kid's outcome, of the node and of a new node.
  lemma KidAccounts(used: set<PageId>, all: set<PageId>, kid: set<PageId>, spill: set<PageId>, out: set<PageId>,
                    id: PageId, more: set<PageId>, used1: set<PageId>)
    requires id in used && id !in all && kid <= all <= used && spill <= used && spill !! all && id !in spill
    requires out !! used - kid - spill && used1 == used - kid - spill + out && more !! used1
    ensures var all' := all - kid + out; var own := {id} + all' + more;
            && out !! all - kid && id !in all' && more !! {id} + all'
            && own !! used - ({id} + all) - spill
            && used1 + more == used - ({id} + all) - spill + own
  {
  }

  lemma NodeConserved(pages: PageMap, used: set<PageId>, s: Stored, r: Row, i: nat, pageSize: nat,
                      oc: StoredOutcome, used1: set<PageId>, kids: seq<Stored>)
    requires NodeReady(pages, used, s, r, i, pageSize)
    requires Conserved(used, used1, s.kids[i], r, oc)
    requires kids == match oc
                     case OneTree(kid) => s.kids[i := kid]
                     case TwoTrees(left, right, _) => Divided(s.kids, i, left, right)
    ensures KidsApart(kids) && s.id !in OwnedByKids(kids)
    ensures forall k :: 0 <= k < |kids| ==> Separate(kids[k])
    ensures var own := {s.id} + OwnedByKids(kids);
            own !! used - Owned(s) - Ids(r.spill) && used1 == used - Owned(s) - Ids(r.spill) + own
  {
    hide NodeReady, Separate, Owned, OwnedByKids, KidsApart, Ids, OnPages, NodeAt;
    NodeReadyFacts(pages, used, s, r, i, pageSize);
    OwnedByKid(s.kids, i);
    KidAccounts(used, OwnedByKids(s.kids), Owned(s.kids[i]), Ids(r.spill), Owning(oc), s.id, {}, used1);
    match oc {
      case OneTree(kid) => ReplacedAccounts(s.kids, i, kid);
      case TwoTrees(left, right, _) => DividedAccounts(s.kids, i, left, right);
    }
  }

  // One node over the kids.
  lemma WholeConserved(used: set<PageId>, used1: set<PageId>, s: Stored, r: Row, node: Stored)
    requires node.StoredNode? && node.id == s.id
    requires KidsApart(node.kids) && s.id !in OwnedByKids(node.kids)
    requires forall k :: 0 <= k < |node.kids| ==> Separate(node.kids[k])
    requires var own := {s.id} + OwnedByKids(node.kids);
             own !! used - Owned(s) - Ids(r.spill) && used1 == used - Owned(s) - Ids(r.spill) + own
    ensures Conserved(used, used1, s, r, OneTree(node))
  {
    hide KidsApart, Ids, OwnedByKids;
    OwnedByNode(node);
  }

  // Two nodes that share the kids.
  lemma HalvesOfNodeConserved(used: set<PageId>, used1: set<PageId>, s: Stored, r: Row, kids: seq<Stored>, m: nat,
                              left: Stored, right: Stored, sep: u64)
    requires KidsApart(kids) && s.id !in OwnedByKids(kids) && m <= |kids|
    requires forall k :: 0 <= k < |kids| ==> Separate(kids[k])
    requires var own := {s.id} + OwnedByKids(kids);
             own !! used - Owned(s) - Ids(r.spill) && used1 == used - Owned(s) - Ids(r.spill) + own
    requires left.StoredNode? && left.id == s.id && left.kids == kids[..m]
    requires right.StoredNode? && right.id !in used1 && right.kids == kids[m..]
    ensures Conserved(used, used1 + {right.id}, s, r, TwoTrees(left, right, sep))
  {
    hide KidsApart, Ids, OwnedByKids, Owned, Separate;
    PartsApart(kids, m);
    SeparateNode(left);
    SeparateNode(right);
    OwnedByNode(left);
    OwnedByNode(right);
  }

  lemma SeparateNode(s: Stored)
    requires s.StoredNode?
    requires s.id !in OwnedByKids(s.kids) && KidsApart(s.kids)
    requires forall i :: 0 <= i < |s.kids| ==> Separate(s.kids[i])
    ensures Separate(s)
  {
    hide KidsApart, OwnedByKids;
  }
}
