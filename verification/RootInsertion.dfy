// Inserting into a stored tree, the split of the root included (insert of src/btree/engine.rs).
module RootInsertion {
  import opened Wrappers
  import opened Bytes
  import opened Cells
  import opened Keyed
  import opened Pages
  import opened Paging
  import opened OverflowChains
  import opened TreeModel
  import opened TreeInvariant
  import opened TreeInsertion
  import opened InsertTheorems
  import opened StoredTrees
  import opened LeafInsertion
  import opened InteriorNodes
  import opened NodeSteps
  import opened NodeInsertion
  import opened BTreeInsert
  import S = Slots

  // The same node on another page.
  function Moved(s: Stored, id: PageId): (m: Stored)
    ensures m.id == id && Value(m) == Value(s)
    ensures s.StoredNode? ==> m == StoredNode(id, s.kids, s.seps)
  {
    match s
    case StoredLeaf(_, rows, used) => StoredLeaf(id, rows, used)
    case StoredNode(_, kids, seps) => StoredNode(id, kids, seps)
  }

  lemma MovedLeaf(pages: PageMap, pages': PageMap, s: Stored, id: PageId, pageSize: nat)
    requires s.StoredLeaf? && OnPages(pages, s, pageSize)
    requires id > 1 && id in pages' && s.id in pages && pages'[id] == pages[s.id]
    ensures OnPages(pages', Moved(s, id), pageSize)
  {
    hide LeafPage, CellsOf;
    SamePageLeaf(pages[s.id], s.id, id, CellsOf(s.rows), pageSize - PAGE_RESERVED_TRAILER - s.used);
  }

  lemma MovedNode(pages: PageMap, pages': PageMap, s: Stored, id: PageId, pageSize: nat)
    requires s.StoredNode? && OnPages(pages, s, pageSize)
    requires id > 1 && id in pages' && s.id in pages && pages'[id] == pages[s.id]
    requires Agree(pages, pages', Below(s))
    ensures OnPages(pages', Moved(s, id), pageSize)
  {
    hide NodeOnPage, Nodes;
    MovedNodePage(pages, pages', s.id, id, s.kids, s.seps, pageSize);
    forall i | 0 <= i < |s.kids| ensures OnPages(pages', s.kids[i], pageSize) {
      OnPagesFrame(pages, pages', s.kids[i], pageSize);
    }
  }

  lemma MovedNodePage(pages: PageMap, pages': PageMap, id: PageId, id': PageId, kids: seq<Stored>, seps: seq<u64>,
                      pageSize: nat)
    requires NodeOnPage(pages, id, kids, seps, pageSize) && id' > 1 && id' in pages' && pages'[id'] == pages[id]
    ensures NodeOnPage(pages', id', kids, seps, pageSize)
  {
    hide InteriorPage, SeparatorBytes, EntriesOf;
    SamePageNode(pages[id], id, id', EntriesOf(kids, seps), kids[|seps|].id,
                 pageSize - PAGE_RESERVED_TRAILER - SeparatorBytes(seps));
  }

  lemma SamePageLeaf(b: seq<byte>, id: PageId, id': PageId, cells: seq<LeafCell>, content: int)
    requires id != 1 && id' != 1 && content >= 0 && LeafPage(b, id, cells, content)
    ensures LeafPage(b, id', cells, content)
  {
    hide S.Slotted, LeafImages, AllStorable, S.Total, PageHeader.Image, LeafCell.Storable;
  }

  lemma SamePageNode(b: seq<byte>, id: PageId, id': PageId, cells: seq<InteriorCell>, right: PageId, content: int)
    requires id != 1 && id' != 1 && content >= 0 && InteriorPage(b, id, cells, right, content)
    ensures InteriorPage(b, id', cells, right, content)
  {
    hide S.Slotted, InteriorImages, PageHeader.Image;
  }

  lemma MovedOverflow(pages: PageMap, pages': PageMap, s: Stored, id: PageId)
    requires Spilled(pages, s) && Agree(pages, pages', OwnedBelow(s))
    ensures Spilled(pages', Moved(s, id)) && OwnedBelow(Moved(s, id)) == OwnedBelow(s)
    ensures Owned(Moved(s, id)) == {id} + OwnedBelow(s)
  {
    hide RowSpilled;
    match s {
      case StoredLeaf(_, rows, _) => RowsSpilledFrame(pages, pages', rows);
      case StoredNode(_, kids, _) =>
        forall i | 0 <= i < |kids| ensures Spilled(pages', kids[i]) {
          OwnedByKid(kids, i);
          SpilledFrame(pages, pages', kids[i]);
        }
    }
  }

  lemma MovedSeparate(s: Stored, id: PageId)
    requires Separate(s) && id !in OwnedBelow(s)
    ensures Separate(Moved(s, id)) && s.id !in OwnedBelow(s) && Owned(s) == {s.id} + OwnedBelow(s)
  {
    hide RowsApart, KidsApart;
  }

  // A root that was split: its page holds a new root over the moved left half and the right half.
  function RootOf(o: StoredOutcome, leftId: PageId): (s: Stored)
    ensures s.id == o.tree.id
  {
    match o
    case OneTree(t) => t
    case TwoTrees(left, right, sep) => StoredNode(left.id, [Moved(left, leftId), right], [sep])
  }

  lemma RootValue(o: StoredOutcome, leftId: PageId, t: Tree, r: Row, page: nat)
    requires page >= MIN_PAGE && Shaped(t) && ValueOf(o) == InsertInto(t, r, page, AsCoded)
    ensures Value(RootOf(o, leftId)) == TreeModel.Insert(t, r, page, AsCoded)
  {
    hide Value, InsertInto, FilledNode;
    if o.TwoTrees? {
      var kids := [Moved(o.tree, leftId), o.right];
      ValueOfNode(RootOf(o, leftId));
      assert Values(kids) == [Value(o.tree), Value(o.right)];
      RootRows(ValueOf(o), page);
    }
  }

  // The pages when the left half has been copied to leftId and the new root written.
  ghost predicate RootWritten(pages: PageMap, used: set<PageId>, pages': PageMap, used': set<PageId>,
                              o: StoredOutcome, leftId: PageId, pageSize: nat)
  {
    && o.TwoTrees? && leftId > 1 && leftId !in used && used' == used + {leftId}
    && o.tree.id in pages && leftId in pages' && pages'[leftId] == pages[o.tree.id]
    && Agree(pages, pages', used - {o.tree.id})
    && NodeAt(pages', o.tree.id, [Moved(o.tree, leftId), o.right], [o.sep], pageSize)
  }

  lemma RootOnPages(pages: PageMap, used: set<PageId>, pages': PageMap, used': set<PageId>, o: StoredOutcome,
                    leftId: PageId, pageSize: nat)
    requires RootWritten(pages, used, pages', used', o, leftId, pageSize)
    requires OnPages(pages, o.tree, pageSize) && OnPages(pages, o.right, pageSize) && NodesOf(o) <= used
    requires o.tree.id !in Below(o.tree) && o.tree.id !in Nodes(o.right)
    ensures OnPages(pages', RootOf(o, leftId), pageSize)
  {
    hide OnPages, Nodes, Below, NodeAt;
    BelowIsNodes(o.tree);
    if o.tree.StoredLeaf? {
      MovedLeaf(pages, pages', o.tree, leftId, pageSize);
    } else {
      MovedNode(pages, pages', o.tree, leftId, pageSize);
    }
    OnPagesFrame(pages, pages', o.right, pageSize);
    NodeOnPages(pages', RootOf(o, leftId), pageSize);
  }

  lemma BelowIsNodes(s: Stored)
    ensures Nodes(s) == {s.id} + Below(s)
  {
  }

  lemma RootKept(pages: PageMap, used: set<PageId>, pages': PageMap, used': set<PageId>, o: StoredOutcome,
                 leftId: PageId, pageSize: nat)
    requires RootWritten(pages, used, pages', used', o, leftId, pageSize)
    requires OutcomeSpilled(pages, o) && Owning(o) <= used
    requires o.tree.id !in OwnedBelow(o.tree) && o.tree.id !in Owned(o.right)
    ensures Spilled(pages', RootOf(o, leftId))
    ensures Owned(RootOf(o, leftId)) == Owning(o) + {leftId}
  {
    hide Owned, OwnedBelow, NodeAt, Spilled;
    BelowIsOwned(o.tree);
    MovedOverflow(pages, pages', o.tree, leftId);
    SpilledFrame(pages, pages', o.right);
    TwoKids(pages', o.tree.id, Moved(o.tree, leftId), o.right, o.sep);
  }

  lemma BelowIsOwned(s: Stored)
    ensures Owned(s) == {s.id} + OwnedBelow(s)
  {
  }

  lemma TwoKids(pages: PageMap, id: PageId, a: Stored, b: Stored, sep: u64)
    ensures var s := StoredNode(id, [a, b], [sep]);
            && Owned(s) == {id} + Owned(a) + Owned(b)
            && (Spilled(pages, a) && Spilled(pages, b) ==> Spilled(pages, s))
            && (Separate(a) && Separate(b) && Owned(a) !! Owned(b) && id !in Owned(a) && id !in Owned(b) ==> Separate(s))
  {
    var kids := [a, b];
    assert kids[0] == a && kids[1] == b;
    OwnedByNode(StoredNode(id, kids, [sep]));
    assert OwnedByKids(kids) == Owned(a) + Owned(b);
  }

  lemma RootConserved(pages: PageMap, used: set<PageId>, pages': PageMap, used': set<PageId>, o: StoredOutcome,
                      leftId: PageId, pageSize: nat)
    requires RootWritten(pages, used, pages', used', o, leftId, pageSize)
    requires Separate(o.tree) && Separate(o.right) && Owned(o.tree) !! Owned(o.right) && Owning(o) <= used
    ensures Separate(RootOf(o, leftId))
  {
    hide Owned, OwnedBelow, NodeAt, Separate;
    BelowIsOwned(o.tree);
    MovedSeparate(o.tree, leftId);
    BelowIsOwned(Moved(o.tree, leftId));
    MovedBelow(o.tree, leftId);
    TwoKids(pages', o.tree.id, Moved(o.tree, leftId), o.right, o.sep);
  }

  lemma MovedBelow(s: Stored, id: PageId)
    ensures OwnedBelow(Moved(s, id)) == OwnedBelow(s)
  {
  }

  // ---- insert ----

  // A well-formed tree of height h in the pager's pages, overflow included, no page used twice.
  ghost predicate TreeReady(pages: PageMap, used: set<PageId>, s: Stored, h: nat, pageSize: nat) {
    && MIN_PAGE <= pageSize
    && Stores(pages, s, pageSize) && Separate(s) && Owned(s) <= used
    && WellFormed(Value(s), -1, LAST_KEY, h, pageSize)
  }

  // Pages an insertion may have to allocate at most.
  function PagesToInsert(payload: Payload, h: nat, pageSize: nat): nat
    requires pageSize >= MIN_PAGE
  {
    (if |payload| > MAX_INLINE_PAYLOAD then PagesFor(|payload| - MAX_INLINE_PAYLOAD, pageSize) else 0) + h + 2
  }

  // The insertion's new row and tree, and what became of the pages.
  ghost predicate Inserts(pages: PageMap, used: set<PageId>, pages': PageMap, used': set<PageId>, s: Stored,
                          r: Row, s': Stored, pageSize: nat)
    requires pageSize >= MIN_PAGE && Shaped(Value(s))
  {
    && s'.id == s.id
    && Value(s') == TreeModel.Insert(Value(s), r, pageSize, AsCoded)
    && OnPages(pages', s', pageSize)
    && Agree(pages, pages', used - Owned(s)) && used - Owned(s) <= used'
    && (!Dangles(Value(s), r, pageSize) ==>
          Spilled(pages', s') && Owned(s') <= used' && Owned(s') !! used - Owned(s))
    && (Clean(Value(s), r, pageSize) ==> Separate(s') && used' == used - Owned(s) + Owned(s'))
    && (!SplitsMiddle(Value(s), r, pageSize) ==>
          Reused(Gone(s, r.key), Full(Value(s), r, pageSize), used', OneTree(s')))
  }

  lemma TreeReadyFacts(pages: PageMap, used: set<PageId>, s: Stored, h: nat, pageSize: nat)
    requires TreeReady(pages, used, s, h, pageSize)
    ensures pageSize >= MIN_PAGE && Shaped(Value(s)) && WellFormed(Value(s), -1, LAST_KEY, h, pageSize)
    ensures OnPages(pages, s, pageSize) && Spilled(pages, s) && Owned(s) <= used && s.id in Owned(s) && s.id > 1
  {
    hide WellFormed, OnPages, Spilled, Separate, Owned, Value;
    WellFormedIsShaped(Value(s), -1, LAST_KEY, h, pageSize);
    OwnedExist(pages, s, pageSize);
  }

  // After the overflow of the new row has been written, the subtree insertion can start.
  lemma RowWritten(pages: PageMap, used: set<PageId>, s: Stored, h: nat, pageSize: nat, pages1: PageMap,
                   used1: set<PageId>, r: Row)
    requires TreeReady(pages, used, s, h, pageSize)
    requires ChainAdded(used, pages, used1, pages1, r.spill) && Flatten(r.spill.chunks) == r.value[InlineLength(r)..]
    requires r.spill.ids == [] <==> |r.value| <= MAX_INLINE_PAYLOAD
    ensures SubtreeReady(pages1, used1, s, r, -1, LAST_KEY, h, pageSize)
  {
    hide WellFormed, OnPages, Spilled, Separate, Owned, Value, ChainHolds;
    StoresFrame(pages, pages1, s, pageSize);
  }

  // Split or not, the root's page holds the outcome.
  lemma RootDone(pages: PageMap, used: set<PageId>, pages1: PageMap, used1: set<PageId>, s: Stored, r: Row, h: nat,
                 pageSize: nat, pages2: PageMap, used2: set<PageId>, pages3: PageMap, used3: set<PageId>,
                 o: StoredOutcome, leftId: PageId)
    requires TreeReady(pages, used, s, h, pageSize) && ChainAdded(used, pages, used1, pages1, r.spill)
    requires pageSize >= MIN_PAGE && Shaped(Value(s)) && ValueOf(o) == InsertInto(Value(s), r, pageSize, AsCoded)
    requires Placed(pages1, used1, pages2, used2, s, o, pageSize)
    requires !Dangles(Value(s), r, pageSize) ==> Kept(used1, pages2, used2, s, r, o)
    requires Clean(Value(s), r, pageSize) ==> Conserved(used1, used2, s, r, o)
    requires !SplitsMiddle(Value(s), r, pageSize) ==> Reused(Gone(s, r.key), Full(Value(s), r, pageSize), used2, o)
    requires RootStep(pages2, used2, pages3, used3, o, leftId, pageSize)
    ensures Inserts(pages, used, pages3, used3, s, r, RootOf(o, leftId), pageSize)
  {
    hide TreeReady, ChainAdded, Placed, Kept, Conserved, RootWritten, WellFormed, OnPages, Spilled, Separate, Owned,
         Value, Dangles, Clean, SplitsMiddle, InsertInto, Reused, Gone, Full, RootOf;
    TreeReadyFacts(pages, used, s, h, pageSize);
    NewPages(pages2, used2, pages3, used3, o, leftId, pageSize);
    RootReuses(Gone(s, r.key), Full(Value(s), r, pageSize), used2, used3, o, leftId);
    RootValue(o, leftId, Value(s), r, pageSize);
    RootPlaced(pages, used, pages1, used1, s, r, pageSize, pages2, used2, pages3, used3, o, leftId);
    if !Dangles(Value(s), r, pageSize) {
      RootSpilled(pages, used, pages1, used1, s, r, pageSize, pages2, used2, pages3, used3, o, leftId);
    }
    if Clean(Value(s), r, pageSize) {
      CleanDoesNotDangle(Value(s), r, pageSize);
      RootAccounts(pages, used, pages1, used1, s, r, pageSize, pages2, used2, pages3, used3, o, leftId);
    }
  }

  // The pages once the root is written: those of the outcome, or the new root above it.
  ghost predicate RootStep(pages: PageMap, used: set<PageId>, pages': PageMap, used': set<PageId>, o: StoredOutcome,
                           leftId: PageId, pageSize: nat)
  {
    if o.OneTree? then pages' == pages && used' == used else RootWritten(pages, used, pages', used', o, leftId, pageSize)
  }

  lemma NewPages(pages: PageMap, used: set<PageId>, pages': PageMap, used': set<PageId>, o: StoredOutcome,
                 leftId: PageId, pageSize: nat)
    requires RootStep(pages, used, pages', used', o, leftId, pageSize)
    ensures used' == used + if o.TwoTrees? then {leftId} else {}
  {
    hide NodeAt;
  }

  lemma RootPlaced(pages: PageMap, used: set<PageId>, pages1: PageMap, used1: set<PageId>, s: Stored, r: Row,
                   pageSize: nat, pages2: PageMap, used2: set<PageId>, pages3: PageMap, used3: set<PageId>,
                   o: StoredOutcome, leftId: PageId)
    requires s.id in Owned(s) && ChainAdded(used, pages, used1, pages1, r.spill)
    requires Placed(pages1, used1, pages2, used2, s, o, pageSize)
    requires RootStep(pages2, used2, pages3, used3, o, leftId, pageSize)
    ensures var s' := RootOf(o, leftId);
            && s'.id == s.id && OnPages(pages3, s', pageSize)
            && Agree(pages, pages3, used - Owned(s)) && used - Owned(s) <= used3
  {
    hide OnPages, Owned, ChainHolds, NodeAt, Nodes, Below;
    if o.TwoTrees? {
      RootOnPages(pages2, used2, pages3, used3, o, leftId, pageSize);
    }
  }

  lemma RootSpilled(pages: PageMap, used: set<PageId>, pages1: PageMap, used1: set<PageId>, s: Stored, r: Row,
                    pageSize: nat, pages2: PageMap, used2: set<PageId>, pages3: PageMap, used3: set<PageId>,
                    o: StoredOutcome, leftId: PageId)
    requires Owned(s) <= used && ChainAdded(used, pages, used1, pages1, r.spill)
    requires Placed(pages1, used1, pages2, used2, s, o, pageSize) && Kept(used1, pages2, used2, s, r, o)
    requires RootStep(pages2, used2, pages3, used3, o, leftId, pageSize)
    ensures var s' := RootOf(o, leftId); Spilled(pages3, s') && Owned(s') <= used3 && Owned(s') !! used - Owned(s)
  {
    hide OnPages, Spilled, Owned, ChainHolds, NodeAt, Nodes, Below, OwnedBelow;
    if o.TwoTrees? {
      RootKept(pages2, used2, pages3, used3, o, leftId, pageSize);
    }
  }

  lemma RootAccounts(pages: PageMap, used: set<PageId>, pages1: PageMap, used1: set<PageId>, s: Stored, r: Row,
                     pageSize: nat, pages2: PageMap, used2: set<PageId>, pages3: PageMap, used3: set<PageId>,
                     o: StoredOutcome, leftId: PageId)
    requires Owned(s) <= used && ChainAdded(used, pages, used1, pages1, r.spill)
    requires Placed(pages1, used1, pages2, used2, s, o, pageSize)
    requires Kept(used1, pages2, used2, s, r, o) && Conserved(used1, used2, s, r, o)
    requires RootStep(pages2, used2, pages3, used3, o, leftId, pageSize)
    ensures var s' := RootOf(o, leftId); Separate(s') && used3 == used - Owned(s) + Owned(s')
  {
    hide OnPages, Spilled, Separate, Owned, ChainHolds, NodeAt, Nodes, Below, OwnedBelow;
    if o.TwoTrees? {
      RootKept(pages2, used2, pages3, used3, o, leftId, pageSize);
      RootConserved(pages2, used2, pages3, used3, o, leftId, pageSize);
    }
  }

  // The pages of both halves are pages of the new root, and so is the left half's new page.
  lemma RootReuses(c: Chain, full: bool, used: set<PageId>, used': set<PageId>, o: StoredOutcome, leftId: PageId)
    requires used' == used + if o.TwoTrees? then {leftId} else {}
    ensures Reused(c, full, used, o) ==> Reused(c, full, used', OneTree(RootOf(o, leftId)))
  {
    hide Nodes, Stocked, Below;
    if o.TwoTrees? {
      var left := Moved(o.tree, leftId);
      BelowIsNodes(o.tree);
      BelowIsNodes(left);
      MovedNodes(o.tree, leftId);
      NodesOfPair(o.tree.id, left, o.right, o.sep);
      if Reused(c, full, used, o) {
        ReusedAbove(c, full, used, o, used', OneTree(RootOf(o, leftId)));
      }
    }
  }

  lemma MovedNodes(s: Stored, id: PageId)
    ensures Below(Moved(s, id)) == Below(s) && Stocked(s) <= Stocked(Moved(s, id)) + {s.id}
  {
  }

  lemma NodesOfPair(id: PageId, a: Stored, b: Stored, sep: u64)
    ensures Nodes(StoredNode(id, [a, b], [sep])) == {id} + Nodes(a) + Nodes(b)
    ensures Stocked(StoredNode(id, [a, b], [sep])) == {id} + Stocked(a) + Stocked(b)
  {
    var kids := [a, b];
    assert kids[0] == a && kids[1] == b;
  }

  lemma CleanDoesNotDangle(t: Tree, r: Row, page: nat)
    requires Shaped(t) && page >= MIN_PAGE && Clean(t, r, page)
    ensures !Dangles(t, r, page)
  {
    hide LeafTakes, LeafFits;
  }

  // The left half goes to a new page, the root's page becomes a node over both halves.
  method SplitRoot(pager: Pager, rootPage: PageId, rightChild: PageId, splitKey: u64, ghost o: StoredOutcome)
    returns (leftChild: PageId)
    requires pager.Valid() && pager.Room() > 0 && MIN_PAGE <= pager.pageSize
    requires o.TwoTrees? && o.tree.id == rootPage && o.right.id == rightChild && o.sep == splitKey
    requires rootPage in pager.InUse() && rootPage > 1
    modifies pager
    ensures pager.Valid() && pager.Room() == old(pager.Room()) - 1
    ensures RootWritten(old(pager.pages), old(pager.InUse()), pager.pages, pager.InUse(), o, leftChild, pager.pageSize)
  {
    hide Pager.Valid, Pager.InUse, Pager.Room, NodeImage, FilledEntries, EntriesOf, SeparatorBytes;
    pager.ValidFacts();
    leftChild := pager.AllocatePage();
    pager.ValidFacts();
    var oldRoot := pager.ReadPage(rootPage);
    var written := pager.WritePage(leftChild, oldRoot.value);
    ghost var left := Moved(o.tree, leftChild);
    EntriesOfOne(left, splitKey, o.right, pager.pageSize);
    RewriteNodePage(pager, rootPage, [InteriorCell(leftChild, splitKey)], rightChild, [left], [splitKey], o.right);
  }

  lemma EntriesOfOne(left: Stored, sep: u64, right: Stored, page: nat)
    requires page >= 100
    ensures EntriesOf([left], [sep]) == [InteriorCell(left.id, sep)]
    ensures FilledEntries([left], [sep], right, page) == ([left, right], [sep])
  {
    assert [left][..0] == [] && [sep][..0] == [] && SeparatorBytes([sep][..0]) == 0;
    assert Inserted([right], 0, left) == [left, right];
    assert Inserted([], 0, sep) == [sep];
  }

  lemma RootInUse(pages: PageMap, used: set<PageId>, pages': PageMap, used': set<PageId>, s: Stored,
                  o: StoredOutcome, pageSize: nat)
    requires Placed(pages, used, pages', used', s, o, pageSize)
    ensures o.tree.id == s.id && s.id in used'
  {
    hide OnPages, Owned, Below;
    BelowIsNodes(o.tree);
  }

  // Store payload under key in the tree rooted at rootPage; the root keeps its page.
  method Insert(pager: Pager, rootPage: PageId, key: u64, payload: Payload, ghost s: Stored, ghost h: nat)
    returns (ghost r: Row, ghost s': Stored)
    requires pager.Valid() && s.id == rootPage
    requires TreeReady(pager.pages, pager.InUse(), s, h, pager.pageSize)
    requires pager.pageSize >= MIN_PAGE && pager.Room() >= PagesToInsert(payload, h, pager.pageSize)
    modifies pager
    ensures pager.Valid() && pager.Room() >= old(pager.Room()) - PagesToInsert(payload, h, pager.pageSize)
    ensures r.key == key && r.value == payload && Shaped(Value(s))
    ensures Inserts(old(pager.pages), old(pager.InUse()), pager.pages, pager.InUse(), s, r, s', pager.pageSize)
  {
    hide Pager.Valid, Pager.InUse, Pager.Room, TreeReady, PagesFor, Inserts, WellFormed, Placed, Kept, Conserved, Reused,
         RootWritten, SubtreeReady, Spilled, OnPages, Owned, Flatten, ChainHolds;
    ghost var pages, used := pager.pages, pager.InUse();
    TreeReadyFacts(pages, used, s, h, pager.pageSize);
    var inline, overflow := payload, None;
    ghost var spill := EMPTY_CHAIN;
    if |payload| > MAX_INLINE_PAYLOAD {
      var first;
      first, spill := WriteOverflowChain(pager, payload[MAX_INLINE_PAYLOAD..]);
      inline, overflow := payload[..MAX_INLINE_PAYLOAD], Some(first);
    } else {
      pager.ValidFacts();
      NothingWritten(used, pages, []);
    }
    r := Row(key, payload, spill);
    RowWritten(pages, used, s, h, pager.pageSize, pager.pages, pager.InUse(), r);
    ghost var pages1, used1 := pager.pages, pager.InUse();
    var split;
    ghost var o;
    split, o := InsertIntoSubtree(pager, rootPage, LeafCell(key, inline, overflow), s, r, -1, LAST_KEY, h);
    ghost var pages2, used2 := pager.pages, pager.InUse();
    RootInUse(pages1, used1, pages2, used2, s, o, pager.pageSize);
    var leftChild := 0;
    if split.Some? {
      var (rightChild, splitKey) := split.value;
      leftChild := SplitRoot(pager, rootPage, rightChild, splitKey, o);
    }
    s' := RootOf(o, leftChild);
    RootDone(pages, used, pages1, used1, s, r, h, pager.pageSize, pages2, used2, pager.pages, pager.InUse(), o, leftChild);
  }
}
