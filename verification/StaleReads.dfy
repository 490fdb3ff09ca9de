// An upsert that straddles the cut of its leaf, on pages: what a search reads afterwards, and what
// has become of the old row's overflow.
module StaleReads {
  import opened Wrappers
  import opened Bytes
  import opened Cells
  import opened Keyed
  import opened Pages
  import opened Paging
  import opened OverflowChains
  import opened TreeModel
  import opened TreeRows
  import opened TreeInvariant
  import opened TreeSizes
  import opened TreeInsertion
  import opened StoredTrees
  import opened LeafInsertion
  import opened NodeInsertion
  import opened BTreeInsert
  import opened RootInsertion
  import opened BTreeRead
  import opened Runs
  import opened SplitLimits
  import Slots

  // ---- leaves stay sorted, whatever the insertion loses ----

  lemma PutAscends(rows: seq<Row>, row: Row)
    requires Ascending(Keys(rows))
    ensures Ascending(Keys(PutRow(rows, row)))
  {
    hide PutRow;
    assert Between(rows, -1, LAST_KEY) by {
      forall i, j | 0 <= i < j < |rows| ensures rows[i].key < rows[j].key {
        assert Keys(rows)[i] < Keys(rows)[j];
      }
    }
    PutBetween(rows, row, -1, LAST_KEY);
    BetweenKeys(PutRow(rows, row), -1, LAST_KEY);
  }

  lemma FilledSearchable(rows: seq<Row>, page: nat)
    ensures Searchable(Filled(rows, page))
  {
    hide Filled, Ascending, Keys;
    FilledAscends(rows, page);
    FilledShaped(rows, page);
  }

  lemma {:induction false} FilledNodeSearchable(kids: seq<Tree>, seps: seq<u64>, right: Tree, page: nat)
    requires |kids| == |seps| && Searchable(right) && forall k :: k in kids ==> Searchable(k)
    ensures Searchable(FilledNode(kids, seps, right, page))
  {
    hide FilledEntries;
    var (kids', seps') := FilledEntries(kids, seps, right, page);
    forall i | 0 <= i < |kids'| ensures Searchable(kids'[i]) {
      FilledEntriesMembers(kids, seps, right, page, kids'[i]);
    }
  }

  lemma {:induction false} NodeStepSearchable(kids: seq<Tree>, seps: seq<u64>, i: nat, left: Tree, right: Tree,
                                              sep: u64, page: nat)
    requires |kids| == |seps| + 1 && i <= |seps| && Searchable(left) && Searchable(right)
    requires forall k :: 0 <= k < |kids| ==> Searchable(kids[k])
    ensures var o := NodeStep(kids, seps, i, left, right, sep, page, AsCoded);
            Searchable(o.tree) && (o.Split? ==> Searchable(o.right))
  {
    hide FilledNode, NodeFits, Grown, Searchable;
    var (kids', seps') := Grown(kids, seps, i, left, right, sep, AsCoded);
    GrownSearchable(kids, seps, i, left, right, sep);
    var mid := |seps'| / 2;
    if NodeFits(seps, sep, page) {
      NodeSearchable(kids', seps');
    } else {
      assert forall k :: k in kids'[..mid] ==> k in kids';
      assert forall k :: k in kids'[mid + 1..|seps'|] ==> k in kids';
      FilledNodeSearchable(kids'[..mid], seps'[..mid], kids'[mid], page);
      FilledNodeSearchable(kids'[mid + 1..|seps'|], seps'[mid + 1..], kids'[|seps'|], page);
    }
  }

  lemma NodeSearchable(kids: seq<Tree>, seps: seq<u64>)
    requires |kids| == |seps| + 1 && forall k :: k in kids ==> Searchable(k)
    ensures Searchable(Node(kids, seps))
  {
    assert forall k :: 0 <= k < |kids| ==> kids[k] in kids;
  }

  lemma {:induction false} GrownSearchable(kids: seq<Tree>, seps: seq<u64>, i: nat, left: Tree, right: Tree, sep: u64)
    requires |kids| == |seps| + 1 && i <= |seps| && Searchable(left) && Searchable(right)
    requires forall k :: 0 <= k < |kids| ==> Searchable(kids[k])
    ensures forall k :: k in Grown(kids, seps, i, left, right, sep, AsCoded).0 ==> Searchable(k)
  {
    hide Above, Searchable;
    var relinked := if i == |seps| then kids[i := right] else kids[i := left];
    assert forall k :: k in relinked ==> Searchable(k);
  }

  lemma {:induction false} InsertIntoSearchable(t: Tree, row: Row, page: nat)
    requires Searchable(t) && Shaped(t) && page >= MIN_PAGE
    ensures var o := InsertInto(t, row, page, AsCoded); Searchable(o.tree) && (o.Split? ==> Searchable(o.right))
  {
    hide LeafFits, PutRow, Filled, Rank, NodeStep, Joint, Ascending, Keys, Appends;
    match t
    case Leaf(rows, used) =>
      if LeafFits(rows, used, row, page) {
        PutAscends(rows, row);
        PutHasRows(rows, row);
      } else {
        FilledSearchable([row], page);
        FilledSearchable(Joint(rows, row)[..|Joint(rows, row)| / 2], page);
        FilledSearchable(Joint(rows, row)[|Joint(rows, row)| / 2..], page);
      }
    case Node(kids, seps) =>
      var i := Rank(seps, row.key);
      InsertIntoSearchable(kids[i], row, page);
      match InsertInto(kids[i], row, page, AsCoded) {
        case Whole(_) =>
        case Split(left, right, sep) => NodeStepSearchable(kids, seps, i, left, right, sep, page);
      }
  }

  // Every insertion leaves a tree in which search can run.
  lemma InsertSearchable(t: Tree, row: Row, page: nat)
    requires Searchable(t) && Shaped(t) && page >= MIN_PAGE
    ensures Searchable(TreeModel.Insert(t, row, page, AsCoded))
  {
    hide InsertInto, FilledNode, Searchable;
    InsertIntoSearchable(t, row, page);
    var o := InsertInto(t, row, page, AsCoded);
    if o.Split? {
      FilledNodeSearchable([o.tree], [o.sep], o.right, page);
    }
  }

  // ---- the overflow of the old row ----

  lemma {:induction false} GoneIsSpill(s: Stored, key: u64)
    requires Shaped(Value(s))
    ensures Gone(s, key) == match RowFor(Value(s), key) case Some(row) => row.spill case None => EMPTY_CHAIN
  {
    hide Rank, Has;
    match s
    case StoredLeaf(_, _, _) =>
    case StoredNode(_, kids, seps) =>
      ValueOfNode(s);
      GoneIsSpill(kids[Rank(seps, key)], key);
  }

  // The first four bytes of a page, where an overflow page has its link.
  function FirstWord(b: seq<byte>): u32
    requires |b| >= 4
  {
    FromLe32(b[0..4])
  }

  lemma HeaderWord(b: seq<byte>, id: PageId, h: PageHeader)
    requires HeaderHolds(b, id, h) && id > 1 && h.flags == 0
    ensures |b| >= 8 && FirstWord(b) == h.pageType.Code() + 0x1_0000 * h.numCells
  {
    var image := h.Image();
    assert b[0..4] == image[0..4] by {
      assert b[0..h.HeaderSize()] == image;
      assert b[0..4] == b[0..h.HeaderSize()][0..4];
    }
    assert image[0..4] == [h.pageType.Code(), 0] + Le16(h.numCells);
    Le16RoundTrip(h.numCells);
    assert b[0..4][..2] == [h.pageType.Code(), 0] && b[0..4][2..] == Le16(h.numCells);
  }

  lemma LeafWord(b: seq<byte>, id: PageId, cells: seq<LeafCell>, content: nat)
    requires LeafPage(b, id, cells, content) && id > 1
    ensures |b| >= 8 && FirstWord(b) > 0x1_0000 * |cells|
  {
    hide HeaderHolds, FirstWord, Slots.Slotted, LeafImages, AllStorable;
    HeaderWord(b, id, LeafHeader(|cells|, content));
  }

  lemma NodeWord(b: seq<byte>, id: PageId, cells: seq<InteriorCell>, right: PageId, content: nat)
    requires InteriorPage(b, id, cells, right, content) && id > 1
    ensures |b| >= 8 && FirstWord(b) > 0x1_0000 * |cells|
  {
    hide HeaderHolds, FirstWord, Slots.Slotted, InteriorImages;
    HeaderWord(b, id, InteriorHeader(|cells|, content, right));
  }

  // The page of a node starts with its type and the number of its cells.  Read as a link that is never
  // the end of a chain,
  lemma {:induction false} NodePageWord(pages: PageMap, s: Stored, pageSize: nat, id: PageId)
    requires OnPages(pages, s, pageSize) && id in Nodes(s)
    ensures id in pages && |pages[id]| >= 8 && FirstWord(pages[id]) != 0
    decreases s
  {
    hide CellsOf, EntriesOf, SeparatorBytes, LeafPage, InteriorPage, FirstWord;
    match s
    case StoredLeaf(_, rows, used) => LeafWord(pages[id], id, CellsOf(rows), pageSize - PAGE_RESERVED_TRAILER - used);
    case StoredNode(_, kids, seps) =>
      if id == s.id {
        NodeWord(pages[id], id, EntriesOf(kids, seps), kids[|seps|].id, pageSize - PAGE_RESERVED_TRAILER - SeparatorBytes(seps));
      } else {
        var i :| 0 <= i < |kids| && id in Nodes(kids[i]);
        NodePageWord(pages, kids[i], pageSize, id);
      }
  }

  // and where there are cells, a page beyond the first 0x10000.
  lemma {:induction false} StockedPageWord(pages: PageMap, s: Stored, pageSize: nat, id: PageId)
    requires OnPages(pages, s, pageSize) && id in Stocked(s)
    ensures id in pages && |pages[id]| >= 8 && FirstWord(pages[id]) > 0x1_0000
    decreases s
  {
    hide CellsOf, EntriesOf, SeparatorBytes, LeafPage, InteriorPage, FirstWord;
    match s
    case StoredLeaf(_, rows, used) => LeafWord(pages[id], id, CellsOf(rows), pageSize - PAGE_RESERVED_TRAILER - used);
    case StoredNode(_, kids, seps) =>
      if id == s.id && seps != [] {
        NodeWord(pages[id], id, EntriesOf(kids, seps), kids[|seps|].id, pageSize - PAGE_RESERVED_TRAILER - SeparatorBytes(seps));
      } else {
        var i :| 0 <= i < |kids| && id in Stocked(kids[i]);
        StockedPageWord(pages, kids[i], pageSize, id);
      }
  }

  // The last page of a chain starts with a zero link.
  lemma LastPageOfChain(pages: PageMap, c: Chain)
    requires ChainHolds(pages, c) && c.ids != []
    ensures var id := c.ids[|c.ids| - 1]; id in pages && |pages[id]| >= 4 && FirstWord(pages[id]) == 0
  {
    hide FromLe32, FromLe16;
    LinkRead(pages, c, |c.ids| - 1);
  }

  lemma OldRowKnown(pages: PageMap, s: Stored, r: Row, h: nat, pageSize: nat)
    requires Spilled(pages, s) && WellFormed(Value(s), -1, LAST_KEY, h, pageSize) && Shaped(Value(s))
    requires Straddles(Value(s), r, pageSize)
    ensures RowFor(Value(s), r.key).Some? && RowFor(Value(s), r.key).value.spill == Gone(s, r.key)
    ensures Dangles(Value(s), r, pageSize) <==> Gone(s, r.key).ids != []
    ensures Full(Value(s), r, pageSize)
  {
    hide WellFormed, Spilled, Value, Dangles, Gone, RowFor, LeafFor, ChainHolds, Takes, LeafFits, Flatten;
    StraddleDangles(Value(s), r, -1, LAST_KEY, h, pageSize);
    GoneIsSpill(s, r.key);
    FoundIsSpilled(pages, s, r.key);
  }

  // A straddling upsert on pages.  The key still leads to the old row and its cell still names the
  // chain that was freed: each page of that chain is now free or a page of a node, the last one surely a
  // node's, so no chain holds the old payload any more.  Only without overflow is the new tree stored
  // with all its payloads.
  lemma StraddledOverflow(pages: PageMap, used: set<PageId>, pages': PageMap, used': set<PageId>, s: Stored, r: Row,
                          s': Stored, h: nat, pageSize: nat)
    requires TreeReady(pages, used, s, h, pageSize) && pageSize >= MIN_PAGE && Shaped(Value(s))
    requires Inserts(pages, used, pages', used', s, r, s', pageSize)
    requires Straddles(Value(s), r, pageSize) && !SplitsMiddle(Value(s), r, pageSize)
    ensures Shaped(Value(s')) && RowFor(Value(s), r.key).Some?
    ensures RowFor(Value(s'), r.key) == RowFor(Value(s), r.key) && Gone(s', r.key) == Gone(s, r.key)
    ensures forall id :: id in Gone(s, r.key).ids ==> id !in used' || id in Nodes(s')
    ensures var c := Gone(s, r.key);
            c.ids != [] ==> c.ids[|c.ids| - 1] in Nodes(s') * Stocked(s') * used' && !ChainHolds(pages', c)
    ensures Spilled(pages', s') <==> !Dangles(Value(s), r, pageSize)
  {
    hide WellFormed, OnPages, Spilled, Separate, Owned, Value, Dangles, Takes, Straddles, SplitsMiddle, TreeModel.Insert,
         Gone, RowFor, Full, ChainHolds, Nodes, Flatten;
    TreeReadyFacts(pages, used, s, h, pageSize);
    OldRowStays(Value(s), r, -1, LAST_KEY, h, pageSize);
    OldRowKnown(pages, s, r, h, pageSize);
    GoneIsSpill(s', r.key);
    var c := Gone(s, r.key);
    forall id | id in c.ids ensures id !in used' || id in Nodes(s') {
      assert id in Ids(c);
    }
    if c.ids != [] {
      NodePageWord(pages', s', pageSize, c.ids[|c.ids| - 1]);
      if ChainHolds(pages', c) {
        LastPageOfChain(pages', c);
      }
      if Spilled(pages', s') {
        FoundIsSpilled(pages', s', r.key);
      }
    }
  }

  // The upsert straddles the cut of its leaf, below right children only, and the old payload has no overflow.
  ghost predicate GoesStale(t: Tree, key: u64, payload: Payload, page: nat)
    requires Shaped(t) && page >= MIN_PAGE
  {
    var r := Row(key, payload, EMPTY_CHAIN);
    && Straddles(t, r, page) && !SplitsMiddle(t, r, page)
    && Lookup(t, key).Some? && |Lookup(t, key).value| <= MAX_INLINE_PAYLOAD
  }

  // Where the overflow of the new payload goes does not matter.
  lemma GoesStaleAnywhere(t: Tree, r: Row, lo: int, hi: int, h: nat, page: nat)
    requires WellFormed(t, lo, hi, h, page) && Shaped(t) && page >= MIN_PAGE && GoesStale(t, r.key, r.value, page)
    ensures Straddles(t, r, page) && !SplitsMiddle(t, r, page) && !Dangles(t, r, page)
  {
    hide WellFormed, Straddles, SplitsMiddle, Dangles, Takes, Lookup, PromotedKey, Full;
    SplitsBySize(t, Row(r.key, r.value, EMPTY_CHAIN), r, page);
    StraddleDangles(t, r, lo, hi, h, page);
  }

  // Such an upsert followed by a search: the search returns the payload from before.
  method UpsertThenSearch(pager: Pager, rootPage: PageId, key: u64, payload: Payload, ghost s: Stored, ghost h: nat)
    returns (found: Result<Option<seq<byte>>>)
    requires pager.Valid() && s.id == rootPage && TreeReady(pager.pages, pager.InUse(), s, h, pager.pageSize)
    requires pager.pageSize >= MIN_PAGE && Shaped(Value(s)) && GoesStale(Value(s), key, payload, pager.pageSize)
    requires pager.Room() >= PagesToInsert(payload, h, pager.pageSize)
    modifies pager
    ensures pager.Valid()
    ensures found == Ok(Lookup(Value(s), key)) && Lookup(Value(s), key).Some?
  {
    hide Pager.Valid, Pager.InUse, Pager.Room, TreeReady, Value, PagesToInsert, WellFormed, TreeModel.Insert, Lookup,
         Searchable, OnPages, Spilled, Owned, Straddles, SplitsMiddle, Dangles, Shaped, GoesStale;
    TreeReadyFacts(pager.pages, pager.InUse(), s, h, pager.pageSize);
    WellFormedIsSearchable(Value(s), -1, LAST_KEY, h, pager.pageSize);
    ghost var r, s' := RootInsertion.Insert(pager, rootPage, key, payload, s, h);
    GoesStaleAnywhere(Value(s), r, -1, LAST_KEY, h, pager.pageSize);
    InsertSearchable(Value(s), r, pager.pageSize);
    StaleRead(Value(s), r, -1, LAST_KEY, h, pager.pageSize);
    found := Search(pager, rootPage, key, s');
  }

  // ---- an old row with one overflow page ----

  // The upsert straddles the cut of its leaf, below right children only, and the old payload has one
  // overflow page.
  ghost predicate LosesPage(s: Stored, key: u64, payload: Payload, page: nat)
    requires Shaped(Value(s)) && page >= MIN_PAGE
  {
    var r := Row(key, payload, EMPTY_CHAIN);
    Straddles(Value(s), r, page) && !SplitsMiddle(Value(s), r, page) && |Gone(s, key).ids| == 1
  }

  // That page is now a node with cells, so following it as overflow leads beyond any database of up to
  // 0x10000 pages.
  lemma Misread(pages: PageMap, used: set<PageId>, pages': PageMap, used': set<PageId>, s: Stored, r: Row, s': Stored,
                h: nat, pageSize: nat)
    requires TreeReady(pages, used, s, h, pageSize) && pageSize >= MIN_PAGE && Shaped(Value(s))
    requires Inserts(pages, used, pages', used', s, r, s', pageSize) && LosesPage(s, r.key, r.value, pageSize)
    requires forall id :: id in pages' ==> id <= 0x1_0000
    ensures Shaped(Value(s')) && Gone(s', r.key) == Gone(s, r.key) && |Gone(s, r.key).ids| == 1
    ensures var id := Gone(s, r.key).ids[0];
            && id in Nodes(s') && id in used' && id > 1 && id in pages' && |pages'[id]| >= 8
            && Linked(pages', [id], FirstWord(pages'[id]))
            && FirstWord(pages'[id]) !in pages' && FirstWord(pages'[id]) > 0x1_0000
    ensures var a := Assembled(pages', RowFor(Value(s'), r.key), 1); a.Some? && a.value.Err?
  {
    hide TreeReady, Inserts, LosesPage, OnPages, Spilled, Value, Dangles, Straddles, SplitsMiddle, Gone, RowFor,
         ChainHolds, Nodes, Stocked, FirstWord, Assembled, Linked, CellOf;
    OnePageRow(pages, used, s, r, h, pageSize);
    StraddledOverflow(pages, used, pages', used', s, r, s', h, pageSize);
    InsertedOnPages(pages, used, pages', used', s, r, s', pageSize);
    var id := Gone(s, r.key).ids[0];
    StockedPageWord(pages', s', pageSize, id);
    LinkBeyond(pages', RowFor(Value(s'), r.key).value, id);
  }

  lemma InsertedOnPages(pages: PageMap, used: set<PageId>, pages': PageMap, used': set<PageId>, s: Stored, r: Row,
                        s': Stored, pageSize: nat)
    requires pageSize >= MIN_PAGE && Shaped(Value(s)) && Inserts(pages, used, pages', used', s, r, s', pageSize)
    ensures OnPages(pages', s', pageSize)
  {
    hide OnPages, Value, Spilled, Owned, Separate, Dangles, SplitsMiddle, Takes, Reused;
  }

  // The old row of such an upsert names its one overflow page.
  lemma OnePageRow(pages: PageMap, used: set<PageId>, s: Stored, r: Row, h: nat, pageSize: nat)
    requires TreeReady(pages, used, s, h, pageSize) && pageSize >= MIN_PAGE && Shaped(Value(s))
    requires LosesPage(s, r.key, r.value, pageSize)
    ensures Straddles(Value(s), r, pageSize) && !SplitsMiddle(Value(s), r, pageSize)
    ensures |Gone(s, r.key).ids| == 1 && Gone(s, r.key).ids[0] > 1 && RowFor(Value(s), r.key).Some?
    ensures CellOf(RowFor(Value(s), r.key).value).overflow == Some(Gone(s, r.key).ids[0])
  {
    hide TreeReady, OnPages, Spilled, Value, Dangles, Straddles, SplitsMiddle, Gone, RowFor, ChainHolds, WellFormed, Full,
         PromotedKey, Owned, Flatten;
    SplitsBySize(Value(s), Row(r.key, r.value, EMPTY_CHAIN), r, pageSize);
    TreeReadyFacts(pages, used, s, h, pageSize);
    OldRowKnown(pages, s, r, h, pageSize);
    FoundIsSpilled(pages, s, r.key);
    ChainParts(pages, Gone(s, r.key));
  }

  // A pointer to a page whose link leads nowhere.
  lemma LinkBeyond(pages: PageMap, row: Row, id: PageId)
    requires CellOf(row).overflow == Some(id) && id > 1 && id in pages && |pages[id]| >= 8
    requires FirstWord(pages[id]) != 0 && FirstWord(pages[id]) !in pages
    ensures Linked(pages, [id], FirstWord(pages[id]))
    ensures var a := Assembled(pages, Some(row), 1); a.Some? && a.value.Err?
  {
    hide FromLe32, FromLe16, CellOf;
  }

  // The pages are those after such an upsert.
  ghost predicate AfterLoss(pager: Pager, pages: PageMap, used: set<PageId>, s: Stored, r: Row, s': Stored, h: nat)
    reads pager
  {
    && pager.Valid() && pager.pageSize >= MIN_PAGE && pager.total <= 0x1_0000
    && TreeReady(pages, used, s, h, pager.pageSize) && Shaped(Value(s))
    && Inserts(pages, used, pager.pages, pager.InUse(), s, r, s', pager.pageSize)
    && LosesPage(s, r.key, r.value, pager.pageSize)
  }

  // A search of the key fails.
  method SearchAfterLoss(pager: Pager, rootPage: PageId, key: u64, ghost pages: PageMap, ghost used: set<PageId>,
                         ghost s: Stored, ghost r: Row, ghost s': Stored, ghost h: nat)
    returns (found: Result<Option<seq<byte>>>)
    requires AfterLoss(pager, pages, used, s, r, s', h) && s.id == rootPage && key == r.key
    ensures found.Err?
  {
    hide Pager.Valid, Pager.InUse, TreeReady, Value, WellFormed, TreeModel.Insert, RowFor, Searchable, OnPages, LosesPage,
         Assembled, Gone, Spilled, Owned, Separate, Reused, Dangles, Takes, SplitsMiddle;
    TotalBound(pager);
    TreeReadyFacts(pages, used, s, h, pager.pageSize);
    WellFormedIsSearchable(Value(s), -1, LAST_KEY, h, pager.pageSize);
    InsertSearchable(Value(s), r, pager.pageSize);
    Misread(pages, used, pager.pages, pager.InUse(), s, r, s', h, pager.pageSize);
    found := SearchPages(pager, rootPage, key, s', 1);
  }

  // Freeing the overflow of the row the key leads to, as a deletion does, frees a node of the tree and
  // then fails.
  method FreeAfterLoss(pager: Pager, first: PageId, ghost pages: PageMap, ghost used: set<PageId>, ghost s: Stored,
                       ghost r: Row, ghost s': Stored, ghost h: nat)
    returns (freed: Result<()>)
    requires AfterLoss(pager, pages, used, s, r, s', h) && first == FirstPage(Gone(s', r.key))
    modifies pager`pages, pager`trunk, pager`freeCount, pager`free
    ensures pager.Valid() && freed.Err?
    ensures first in Nodes(s') && first in old(pager.InUse()) && pager.InUse() == old(pager.InUse()) - {first}
  {
    hide Pager.Valid, Pager.InUse, TreeReady, Value, Inserts, OnPages, LosesPage, Assembled, Gone, Nodes, Linked, Zeroed,
         FirstWord, RowFor, NoRepeats;
    TotalBound(pager);
    Misread(pages, used, pager.pages, pager.InUse(), s, r, s', h, pager.pageSize);
    assert first == Gone(s, r.key).ids[0] && (set id | id in [first]) == {first};
    freed := FreeOverflowChain(pager, first, [first], FirstWord(pager.pages[first]));
  }

  lemma TotalBound(pager: Pager)
    requires pager.Valid()
    ensures forall id: PageId :: id in pager.pages <==> 1 <= id <= pager.total
  {
  }
}
