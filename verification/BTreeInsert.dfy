// Inserting below a page of a stored tree (insert_into_subtree_cow of src/btree/engine.rs).
module BTreeInsert {
  import opened Wrappers
  import opened Bytes
  import opened Cells
  import opened Keyed
  import opened Paging
  import opened OverflowChains
  import opened TreeModel
  import opened TreeInvariant
  import opened TreeSizes
  import opened TreeInsertion
  import opened InsertTheorems
  import opened StoredTrees
  import opened LeafInsertion
  import opened InteriorNodes
  import opened NodeSteps
  import opened NodeInsertion

  // What an insertion relies on: a well-formed tree, stored without sharing, and a row whose
  // overflow has been written to pages of its own.
  ghost predicate SubtreeReady(pages: PageMap, used: set<PageId>, s: Stored, r: Row, lo: int, hi: int, h: nat,
                               pageSize: nat) {
    && MIN_PAGE <= pageSize
    && Stores(pages, s, pageSize) && Separate(s) && Owned(s) <= used
    && RowSpilled(pages, r) && Ids(r.spill) <= used && Ids(r.spill) !! Owned(s)
    && WellFormed(Value(s), lo, hi, h, pageSize) && lo < r.key <= hi
  }

  // The leaf of the key gives up overflow pages that it goes on referring to.
  ghost predicate Dangles(t: Tree, r: Row, page: nat)
    requires Shaped(t)
  {
    LeafDangles(LeafFor(t, r.key), r, page)
  }

  // The overflow chain of the row that the key leads to.
  function Gone(s: Stored, key: u64): Chain {
    match s
    case StoredLeaf(_, rows, _) => Replaced(rows, key)
    case StoredNode(_, kids, seps) => var i := Rank(seps, key); if i < |kids| then Gone(kids[i], key) else EMPTY_CHAIN
  }

  // No row is lost or doubled and no half is left out of the tree.
  ghost predicate Clean(t: Tree, r: Row, page: nat)
    requires Shaped(t) && page >= MIN_PAGE
  {
    Takes(t, r, page) && !SplitsMiddle(t, r, page)
  }

  lemma LeafIsReady(pages: PageMap, used: set<PageId>, s: Stored, r: Row, lo: int, hi: int, h: nat, pageSize: nat)
    requires SubtreeReady(pages, used, s, r, lo, hi, h, pageSize) && s.StoredLeaf?
    ensures LeafReady(pages, used, s, r, lo, hi, pageSize) && h == 0
  {
    hide RowSpilled, Stores, Separate, Owned;
    WellFormedLeaf(Value(s), lo, hi, h, pageSize);
  }

  lemma NodeIsReady(pages: PageMap, used: set<PageId>, s: Stored, r: Row, lo: int, hi: int, h: nat, pageSize: nat)
    requires SubtreeReady(pages, used, s, r, lo, hi, h, pageSize) && s.StoredNode?
    ensures h > 0 && |s.kids| == |s.seps| + 1 && Ascending(s.seps) && SepsFitAlone(s.seps, pageSize)
    ensures var i := Rank(s.seps, r.key);
            && NodeReady(pages, used, s, r, i, pageSize) && Spilled(pages, s)
            && SubtreeReady(pages, used, s.kids[i], r, Lower(s.seps, lo, i), Upper(s.seps, hi, i), h - 1, pageSize)
  {
    hide RowSpilled, OnPages, Spilled, Separate, Owned, WellFormed, Rank, Value, Ids, SeparatorBytes;
    var i := Rank(s.seps, r.key);
    ValueOfNode(s);
    NodeFacts(Value(s), lo, hi, h, pageSize);
    NodeKid(Value(s), lo, hi, h, pageSize, i);
    RankRange(s.seps, lo, hi, r.key);
    NodeReadyFacts(pages, used, s, r, i, pageSize);
    OwnedByKid(s.kids, i);
    SpilledKid(pages, s, i);
  }

  // What the insertion into the kid means for the node.
  lemma NodeValues(s: Stored, r: Row, page: nat, oc: StoredOutcome)
    requires s.StoredNode? && |s.kids| == |s.seps| + 1 && Shaped(Value(s)) && page >= MIN_PAGE
    requires var kid := Value(s.kids[Rank(s.seps, r.key)]); Shaped(kid) && ValueOf(oc) == InsertInto(kid, r, page, AsCoded)
    ensures var i := Rank(s.seps, r.key);
            && InsertInto(Value(s), r, page, AsCoded)
               == (if oc.OneTree? then ValueOf(OneTree(StoredNode(s.id, s.kids[i := oc.tree], s.seps)))
                   else NodeStep(Values(s.kids), s.seps, i, Value(oc.tree), Value(oc.right), oc.sep, page, AsCoded))
            && (!Dangles(Value(s), r, page) ==> !Dangles(Value(s.kids[i]), r, page))
            && (Takes(Value(s), r, page) ==> Takes(Value(s.kids[i]), r, page))
            && (!SplitsMiddle(Value(s), r, page) ==>
                  !SplitsMiddle(Value(s.kids[i]), r, page) && (oc.TwoTrees? ==> i == |s.seps|))
            && Gone(s, r.key) == Gone(s.kids[i], r.key) && Full(Value(s), r, page) == Full(Value(s.kids[i]), r, page)
  {
    hide Value, NodeStep, LeafDangles, LeafTakes, Rank, Values, SplitLeaf, PutRow, LeafFits, PromotedKey;
    ValueOfNode(s);
    var i := Rank(s.seps, r.key);
    PromotedIsSeparator(Value(s.kids[i]), r, page, AsCoded);
    if oc.OneTree? {
      ValueOfNode(StoredNode(s.id, s.kids[i := oc.tree], s.seps));
      ValuesUpdated(s.kids, i, oc.tree);
    }
  }

  // The kid did not split: the node's page stays as it is.
  lemma NodeUntouched(pages: PageMap, used: set<PageId>, s: Stored, r: Row, i: nat, pageSize: nat, kid: Stored,
                      pages1: PageMap, used1: set<PageId>)
    requires NodeReady(pages, used, s, r, i, pageSize)
    requires Placed(pages, used, pages1, used1, s.kids[i], OneTree(kid), pageSize)
    ensures var o := OneTree(StoredNode(s.id, s.kids[i := kid], s.seps));
            && Placed(pages, used, pages1, used1, s, o, pageSize)
            && (Spilled(pages, s) && Kept(used, pages1, used1, s.kids[i], r, OneTree(kid)) ==>
                  Kept(used, pages1, used1, s, r, o))
            && (Conserved(used, used1, s.kids[i], r, OneTree(kid)) ==> Conserved(used, used1, s, r, o))
            && Carries(OneTree(kid), o)
  {
    hide NodeReady, OnPages, Spilled, Separate, Owned, Nodes, Stocked, OwnedByKids, KidsApart, NodeImage, Kept, Conserved,
         Ids;
    NodeReadyFacts(pages, used, s, r, i, pageSize);
    OwnedByKid(s.kids, i);
    var oc, node := OneTree(kid), StoredNode(s.id, s.kids[i := kid], s.seps);
    assert NodeAt(pages1, s.id, s.kids, s.seps, pageSize);
    SameIds(pages1[s.id], s.id, s.kids, s.seps, i, kid);
    NodePlaced(pages, used, s, r, i, pageSize, oc, pages1, used1, pages1, used1, {}, OneTree(node));
    NodesOfKid(node, i);
    if Conserved(used, used1, s.kids[i], r, oc) {
      NodeConserved(pages, used, s, r, i, pageSize, oc, used1, node.kids);
      WholeConserved(used, used1, s, r, node);
    }
  }

  lemma NodesOfKid(node: Stored, i: nat)
    requires node.StoredNode? && i < |node.kids|
    ensures Nodes(node.kids[i]) <= Nodes(node) && Stocked(node.kids[i]) <= Stocked(node)
  {
  }

  // Of the pages of the kid's outcome none is lost when the right child was split.
  lemma RightNodes(s: Stored, oc: StoredOutcome, rightId: PageId, page: nat, lo: int)
    requires s.StoredNode? && |s.kids| == |s.seps| + 1 && Ascending(s.seps) && SepsFitAlone(s.seps, page) && page >= 100
    requires oc.TwoTrees? && Lower(s.seps, lo, |s.seps|) < oc.sep
    ensures Carries(oc, NodeOutcome(s, |s.seps|, oc.tree, oc.right, oc.sep, rightId, page))
  {
    hide NodeOutcome, Nodes, Stocked, Ascending, SepsFitAlone, Lower;
    var n := |s.seps|;
    var o := NodeOutcome(s, n, oc.tree, oc.right, oc.sep, rightId, page);
    var kids := Divided(s.kids, n, oc.tree, oc.right);
    RightOutcome(s, oc.tree, oc.right, oc.sep, rightId, page, lo);
    if o.OneTree? {
      NodesOfKid(o.tree, n);
      NodesOfKid(o.tree, n + 1);
    } else {
      var m :| 0 <= m <= |kids| && o.tree.kids == kids[..m] && o.right.kids == kids[m..];
      NodesOfHalf(o, kids, m, n);
      NodesOfHalf(o, kids, m, n + 1);
    }
  }

  lemma NodesOfHalf(o: StoredOutcome, kids: seq<Stored>, m: nat, i: nat)
    requires o.TwoTrees? && o.tree.StoredNode? && o.right.StoredNode? && m <= |kids| && i < |kids|
    requires o.tree.kids == kids[..m] && o.right.kids == kids[m..]
    ensures Nodes(kids[i]) <= NodesOf(o) && Stocked(kids[i]) <= StockedOf(o)
  {
    hide Nodes, Stocked;
    if i < m {
      NodesOfKid(o.tree, i);
    } else {
      NodesOfKid(o.right, i - m);
    }
  }

  lemma ReusedAbove(c: Chain, full: bool, used1: set<PageId>, oc: StoredOutcome, used2: set<PageId>, o: StoredOutcome)
    requires Reused(c, full, used1, oc) && Carries(oc, o) && used1 <= used2 && used2 - used1 <= NodesOf(o)
    ensures Reused(c, full, used2, o)
  {
    hide NodesOf, StockedOf;
  }

  // The node took the entry on its own page, or was divided over its page and a new one.
  lemma NodeRewritten(pages: PageMap, used: set<PageId>, s: Stored, r: Row, i: nat, pageSize: nat,
                      oc: StoredOutcome, pages1: PageMap, used1: set<PageId>, pages2: PageMap, used2: set<PageId>,
                      rightId: PageId, lo: int)
    requires NodeReady(pages, used, s, r, i, pageSize) && Ascending(s.seps) && SepsFitAlone(s.seps, pageSize) && pageSize >= 100
    requires oc.TwoTrees? && Placed(pages, used, pages1, used1, s.kids[i], oc, pageSize)
    requires var fits := NodeFits(s.seps, oc.sep, pageSize);
             && NodeChanged(pages1, used1, pages2, used2, s.id, if fits then {} else {rightId})
             && var o := NodeOutcome(s, i, oc.tree, oc.right, oc.sep, rightId, pageSize);
             && NodeAt(pages2, s.id, o.tree.kids, o.tree.seps, pageSize)
             && (!fits ==> NodeAt(pages2, rightId, o.right.kids, o.right.seps, pageSize))
    ensures var o := NodeOutcome(s, i, oc.tree, oc.right, oc.sep, rightId, pageSize);
            && Placed(pages, used, pages2, used2, s, o, pageSize)
            && (Spilled(pages, s) && Kept(used, pages1, used1, s.kids[i], r, oc) ==> Kept(used, pages2, used2, s, r, o))
            && (i == |s.seps| && Lower(s.seps, lo, i) < oc.sep && Conserved(used, used1, s.kids[i], r, oc) ==>
                  Conserved(used, used2, s, r, o))
  {
    hide NodeReady, Placed, Spilled, OnPages, Owned, Nodes, OwnedByKids, KidsApart, Separate, NodeAt, Ids, NodeFits,
         KnownKid, Kept, Conserved, NodeOutcome, SepsFitAlone, Ascending, Lower, NodeChanged;
    NodeReadyFacts(pages, used, s, r, i, pageSize);
    var o := NodeOutcome(s, i, oc.tree, oc.right, oc.sep, rightId, pageSize);
    var more := if NodeFits(s.seps, oc.sep, pageSize) then {} else {rightId};
    forall m | m in o.tree.kids || (o.TwoTrees? && m in o.right.kids) ensures KnownKid(s, i, oc, m) {
      OutcomeKids(s, i, oc.tree, oc.right, oc.sep, rightId, pageSize, m);
    }
    NodePlaced(pages, used, s, r, i, pageSize, oc, pages1, used1, pages2, used2, more, o);
    if i == |s.seps| && Lower(s.seps, lo, i) < oc.sep && Conserved(used, used1, s.kids[i], r, oc) {
      RightConserved(pages, used, s, r, pageSize, oc, pages1, used1, pages2, used2, rightId, lo);
    }
  }

  lemma RightConserved(pages: PageMap, used: set<PageId>, s: Stored, r: Row, pageSize: nat, oc: StoredOutcome,
                       pages1: PageMap, used1: set<PageId>, pages2: PageMap, used2: set<PageId>, rightId: PageId,
                       lo: int)
    requires s.StoredNode? && NodeReady(pages, used, s, r, |s.seps|, pageSize)
    requires Ascending(s.seps) && SepsFitAlone(s.seps, pageSize) && pageSize >= 100
    requires oc.TwoTrees? && Lower(s.seps, lo, |s.seps|) < oc.sep && Conserved(used, used1, s.kids[|s.seps|], r, oc)
    requires NodeChanged(pages1, used1, pages2, used2, s.id, if NodeFits(s.seps, oc.sep, pageSize) then {} else {rightId})
    ensures Conserved(used, used2, s, r, NodeOutcome(s, |s.seps|, oc.tree, oc.right, oc.sep, rightId, pageSize))
  {
    hide NodeReady, Owned, OwnedByKids, KidsApart, Separate, Ids, NodeFits, Conserved, NodeOutcome, SepsFitAlone,
         Ascending, Lower, NodeAt, OnPages;
    var n := |s.seps|;
    NodeReadyFacts(pages, used, s, r, n, pageSize);
    var o := NodeOutcome(s, n, oc.tree, oc.right, oc.sep, rightId, pageSize);
    var kids := Divided(s.kids, n, oc.tree, oc.right);
    NodeConserved(pages, used, s, r, n, pageSize, oc, used1, kids);
    RightOutcome(s, oc.tree, oc.right, oc.sep, rightId, pageSize, lo);
    if o.OneTree? {
      assert used2 == used1;
      WholeConserved(used, used1, s, r, o.tree);
    } else {
      assert used2 == used1 + {rightId};
      var m :| 0 <= m <= |kids| && o.tree.kids == kids[..m] && o.right.kids == kids[m..];
      HalvesOfNodeConserved(used, used1, s, r, kids, m, o.tree, o.right, o.sep);
    }
  }

  // Give the node its entry for the new child, splitting it when the entry does not fit.
  method LinkSplit(pager: Pager, id: PageId, target: PageId, childIdx: Option<nat>, newChild: PageId, sep: u64,
                   ghost pages: PageMap, ghost used: set<PageId>, ghost s: Stored, ghost r: Row, ghost i: nat,
                   ghost oc: StoredOutcome, ghost lo: int)
    returns (split: Option<(PageId, u64)>, ghost o: StoredOutcome)
    requires pager.Valid() && pager.Room() > 0 && MIN_PAGE <= pager.pageSize && s.id == id
    requires NodeReady(pages, used, s, r, i, pager.pageSize) && Ascending(s.seps) && SepsFitAlone(s.seps, pager.pageSize)
    requires Placed(pages, used, pager.pages, pager.InUse(), s.kids[i], oc, pager.pageSize)
    requires oc.TwoTrees? && target == s.kids[i].id && newChild == oc.right.id && sep == oc.sep
    requires childIdx == if i < |s.seps| then Some(i) else None
    modifies pager
    ensures pager.Valid() && pager.Room() >= old(pager.Room()) - 1
    ensures |s.kids| == |s.seps| + 1
    ensures ValueOf(o) == NodeStep(Values(s.kids), s.seps, i, Value(oc.tree), Value(oc.right), sep, pager.pageSize, AsCoded)
    ensures split == match o case OneTree(_) => None case TwoTrees(_, right, key) => Some((right.id, key))
    ensures Placed(pages, used, pager.pages, pager.InUse(), s, o, pager.pageSize)
    ensures Spilled(pages, s) && Kept(used, old(pager.pages), old(pager.InUse()), s.kids[i], r, oc) ==>
      Kept(used, pager.pages, pager.InUse(), s, r, o)
    ensures i == |s.seps| && Lower(s.seps, lo, i) < oc.sep && Conserved(used, old(pager.InUse()), s.kids[i], r, oc) ==>
      Conserved(used, pager.InUse(), s, r, o)
    ensures i == |s.seps| && Lower(s.seps, lo, i) < oc.sep ==>
      Carries(oc, o) && old(pager.InUse()) <= pager.InUse() && pager.InUse() - old(pager.InUse()) <= NodesOf(o)
  {
    hide NodeReady, Spilled, OnPages, Owned, Nodes, OwnedByKids, KidsApart, Separate, NodeImage, Ids, NodeFits, Kept,
         Conserved, NodeOutcome, SepsFitAlone, Ascending, Lower, Grown, Pager.Valid, Pager.InUse, Pager.Room,
         NodeStep, Values, Value;
    ghost var pages1, used1 := pager.pages, pager.InUse();
    pager.ValidFacts();
    NodeReadyFacts(pages, used, s, r, i, pager.pageSize);
    OwnedByKid(s.kids, i);
    assert NodeAt(pager.pages, id, s.kids, s.seps, pager.pageSize);
    var cell := InteriorCell(target, sep);
    var newRight := if childIdx.None? then Some(newChild) else None;
    var canFit := GrowNode(pager, id, cell, newRight, s, i, oc.tree, oc.right);
    if canFit {
      o := NodeOutcome(s, i, oc.tree, oc.right, sep, 0, pager.pageSize);
      FittingOutcome(s, i, oc.tree, oc.right, sep, 0, pager.pageSize);
      NodeOutcomeValue(s, i, oc.tree, oc.right, sep, 0, pager.pageSize);
      NodeRewritten(pages, used, s, r, i, pager.pageSize, oc, pages1, used1, pager.pages, pager.InUse(), 0, lo);
      LinkedNodes(s, i, oc, used1, pager.InUse(), 0, pager.pageSize, lo);
      return None, o;
    }
    var look := pager.WithPage(id);
    var rightId, splitKey := SplitInteriorPage(pager, id, look.value, cell, newRight, s, i, oc.tree, oc.right);
    o := NodeOutcome(s, i, oc.tree, oc.right, sep, rightId, pager.pageSize);
    NodeOutcomeValue(s, i, oc.tree, oc.right, sep, rightId, pager.pageSize);
    NodeRewritten(pages, used, s, r, i, pager.pageSize, oc, pages1, used1, pager.pages, pager.InUse(), rightId, lo);
    LinkedNodes(s, i, oc, used1, pager.InUse(), rightId, pager.pageSize, lo);
    return Some((rightId, splitKey)), o;
  }

  lemma LinkedNodes(s: Stored, i: nat, oc: StoredOutcome, used1: set<PageId>, used2: set<PageId>, rightId: PageId,
                    page: nat, lo: int)
    requires s.StoredNode? && i < |s.kids| == |s.seps| + 1 && Ascending(s.seps) && SepsFitAlone(s.seps, page) && page >= 100
    requires oc.TwoTrees?
    requires used2 == used1 + if NodeFits(s.seps, oc.sep, page) then {} else {rightId}
    ensures var o := NodeOutcome(s, i, oc.tree, oc.right, oc.sep, rightId, page);
            i == |s.seps| && Lower(s.seps, lo, i) < oc.sep ==> Carries(oc, o) && used2 - used1 <= NodesOf(o)
  {
    hide Carries, Ascending, SepsFitAlone, Lower, NodesOf, NodeFits, Grown, FilledEntries;
    if i == |s.seps| && Lower(s.seps, lo, i) < oc.sep {
      RightNodes(s, oc, rightId, page, lo);
      if !NodeFits(s.seps, oc.sep, page) {
        RightPage(NodeOutcome(s, i, oc.tree, oc.right, oc.sep, rightId, page));
      }
    }
  }

  lemma RightPage(o: StoredOutcome)
    requires o.TwoTrees?
    ensures o.right.id in NodesOf(o)
  {
  }

  lemma FittingOutcome(s: Stored, i: nat, left: Stored, right: Stored, sep: u64, rightId: PageId, page: nat)
    requires s.StoredNode? && |s.kids| == |s.seps| + 1 && i <= |s.seps| && NodeFits(s.seps, sep, page)
    ensures var (kids', seps') := Grown(s.kids, s.seps, i, left, right, sep, AsCoded);
            NodeOutcome(s, i, left, right, sep, rightId, page) == OneTree(StoredNode(s.id, kids', seps'))
  {
    hide NodeFits, Grown;
  }

  lemma StoredOnPages(pages: PageMap, used: set<PageId>, s: Stored, r: Row, lo: int, hi: int, h: nat, pageSize: nat)
    requires SubtreeReady(pages, used, s, r, lo, hi, h, pageSize)
    ensures OnPages(pages, s, pageSize) && pageSize >= MIN_PAGE && Shaped(Value(s))
    ensures WellFormed(Value(s), lo, hi, h, pageSize) && lo < r.key <= hi
  {
    hide WellFormed, OnPages, Value, Separate, Owned, Spilled;
    WellFormedIsShaped(Value(s), lo, hi, h, pageSize);
  }

  // Insert the row's cell below page id; a split is reported with the new page and the separator.
  method InsertIntoSubtree(pager: Pager, id: PageId, cell: LeafCell, ghost s: Stored, ghost r: Row, ghost lo: int,
                           ghost hi: int, ghost h: nat)
    returns (split: Option<(PageId, u64)>, ghost o: StoredOutcome)
    requires pager.Valid() && pager.Room() > h && s.id == id && cell == CellOf(r)
    requires SubtreeReady(pager.pages, pager.InUse(), s, r, lo, hi, h, pager.pageSize)
    modifies pager
    ensures pager.Valid() && pager.Room() >= old(pager.Room()) - (h + 1)
    ensures pager.pageSize >= MIN_PAGE && Shaped(Value(s))
    ensures ValueOf(o) == InsertInto(Value(s), r, pager.pageSize, AsCoded)
    ensures split == match o case OneTree(_) => None case TwoTrees(_, right, sep) => Some((right.id, sep))
    ensures Placed(old(pager.pages), old(pager.InUse()), pager.pages, pager.InUse(), s, o, pager.pageSize)
    ensures !Dangles(Value(s), r, pager.pageSize) ==> Kept(old(pager.InUse()), pager.pages, pager.InUse(), s, r, o)
    ensures Clean(Value(s), r, pager.pageSize) ==> Conserved(old(pager.InUse()), pager.InUse(), s, r, o)
    ensures !SplitsMiddle(Value(s), r, pager.pageSize) ==>
      Reused(Gone(s, r.key), Full(Value(s), r, pager.pageSize), pager.InUse(), o)
    decreases h
  {
    hide SubtreeReady, Pager.Valid, Pager.InUse, Pager.Room, CellOf, NodeImage, OnPages, Value, Values, Placed, Kept,
         Conserved, WellFormed, Spilled, Rank, NodeReady, InsertInto, LeafReady, Dangles, Takes, SplitsMiddle, NodeStep,
         Full, Gone, Reused, NodesOf, Carries, LeafFits, Lower, Upper, SepsFitAlone, Ascending, Separate, Owned, Shaped;
    ghost var pages, used, pageSize := pager.pages, pager.InUse(), pager.pageSize;
    StoredOnPages(pages, used, s, r, lo, hi, h, pageSize);
    var pageType := ReadPageType(pager, id, s);
    if pageType == TableLeaf {
      LeafIsReady(pages, used, s, r, lo, hi, h, pageSize);
      split, o := InsertIntoLeaf(pager, id, cell, s, r, lo, hi);
      LeafConditions(s, r, pageSize);
      return;
    }
    ghost var i, kidLo, kidHi := Descend(pages, used, s, r, lo, hi, h, pageSize);
    var look := pager.WithPage(id);
    var target, childIdx := Route(look.value, id, cell.rowId, s.kids, s.seps);
    var childSplit;
    ghost var oc;
    childSplit, oc := InsertIntoSubtree(pager, target, cell, s.kids[i], r, kidLo, kidHi, h - 1);
    NodeValues(s, r, pageSize, oc);
    match childSplit {
      case None =>
        NodeUntouched(pages, used, s, r, i, pageSize, oc.tree, pager.pages, pager.InUse());
        o := OneTree(StoredNode(s.id, s.kids[i := oc.tree], s.seps));
        if !SplitsMiddle(Value(s), r, pageSize) {
          ReusedAbove(Gone(s, r.key), Full(Value(s), r, pageSize), pager.InUse(), oc, pager.InUse(), o);
        }
        return None, o;
      case Some((newChild, sep)) =>
        SplitSeparator(oc);
        ghost var used1 := pager.InUse();
        split, o := LinkSplit(pager, id, target, childIdx, newChild, sep, pages, used, s, r, i, oc, lo);
        if !SplitsMiddle(Value(s), r, pageSize) {
          ReusedAbove(Gone(s, r.key), Full(Value(s), r, pageSize), used1, oc, pager.InUse(), o);
        }
    }
  }

  // The kid of the key, its range, and what the insertion into it may rely on.
  lemma Descend(pages: PageMap, used: set<PageId>, s: Stored, r: Row, lo: int, hi: int, h: nat, pageSize: nat)
    returns (i: nat, kidLo: int, kidHi: int)
    requires SubtreeReady(pages, used, s, r, lo, hi, h, pageSize) && s.StoredNode?
    ensures CellOf(r).rowId == r.key && h > 0 && i < |s.kids| == |s.seps| + 1 && i == Rank(s.seps, r.key)
    ensures kidLo == Lower(s.seps, lo, i) && Ascending(s.seps) && SepsFitAlone(s.seps, pageSize) && pageSize >= MIN_PAGE
    ensures NodeReady(pages, used, s, r, i, pageSize) && Spilled(pages, s)
    ensures s.id in pages && NodeImage(pages[s.id], s.id, s.kids, s.seps)
    ensures SubtreeReady(pages, used, s.kids[i], r, kidLo, kidHi, h - 1, pageSize)
    ensures Shaped(Value(s.kids[i]))
    ensures var o := InsertInto(Value(s.kids[i]), r, pageSize, AsCoded); o.Split? ==> kidLo < o.sep
  {
    hide SubtreeReady, NodeReady, NodeImage, OnPages, Value, WellFormed, Rank, InsertInto, Lower, Upper, SepsFitAlone,
         Ascending, Separate, Owned, Spilled, KidsApart, OwnedByKids, Ids;
    NodeIsReady(pages, used, s, r, lo, hi, h, pageSize);
    i := Rank(s.seps, r.key);
    NodeReadyFacts(pages, used, s, r, i, pageSize);
    kidLo, kidHi := Lower(s.seps, lo, i), Upper(s.seps, hi, i);
    StoredOnPages(pages, used, s.kids[i], r, kidLo, kidHi, h - 1, pageSize);
    CodedSeparator(Value(s.kids[i]), r, kidLo, kidHi, h - 1, pageSize);
  }

  lemma SplitSeparator(o: StoredOutcome)
    requires o.TwoTrees?
    ensures ValueOf(o).Split? && ValueOf(o).sep == o.sep
  {
  }

  lemma LeafConditions(s: Stored, r: Row, page: nat)
    requires s.StoredLeaf? && Shaped(Value(s)) && page >= MIN_PAGE
    ensures Dangles(Value(s), r, page) <==> LeafDangles(Value(s), r, page)
    ensures Takes(Value(s), r, page) <==> LeafTakes(Value(s), r, page)
    ensures !SplitsMiddle(Value(s), r, page)
    ensures Full(Value(s), r, page) <==> !LeafFits(s.rows, s.used, r, page)
    ensures Gone(s, r.key) == Replaced(s.rows, r.key)
  {
    hide LeafDangles, LeafTakes, LeafFits;
  }
}
