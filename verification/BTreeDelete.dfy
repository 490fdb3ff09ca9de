// Deleting from a stored tree (delete and delete_from_subtree of src/btree/engine.rs): one leaf
// page is rewritten, the row's overflow is freed, and no node is merged or dropped.
module BTreeDelete {
  import opened Bytes
  import opened Cells
  import opened Keyed
  import opened Pages
  import opened LeafPages
  import opened Paging
  import opened OverflowChains
  import opened TreeModel
  import opened TreeRows
  import opened TreeInvariant
  import opened StoredTrees
  import opened LeafNodes
  import opened LeafInsertion
  import opened InteriorNodes
  import opened NodeSteps
  import opened NodeInsertion
  import opened BTreeRead
  import opened BTreeInsert
  import opened RootInsertion
  import S = Slots

  function Deleted(s: Stored, key: u64): (s': Stored)
    ensures s'.id == s.id
  {
    match s
    case StoredLeaf(id, rows, _) =>
      if Has(Keys(rows), key) then StoredLeaf(id, WithoutKey(rows, key), CellBytes(WithoutKey(rows, key))) else s
    case StoredNode(id, kids, seps) =>
      var i := Rank(seps, key);
      if i < |kids| then StoredNode(id, kids[i := Deleted(kids[i], key)], seps) else s
  }

  lemma {:induction false} DeletedValue(s: Stored, key: u64)
    requires Shaped(Value(s))
    ensures Value(Deleted(s, key)) == TreeModel.Delete(Value(s), key)
  {
    hide Rank, WithoutKey, CellBytes, Has;
    match s
    case StoredLeaf(_, _, _) =>
    case StoredNode(_, kids, seps) =>
      var i := Rank(seps, key);
      ValueOfNode(s);
      ValueOfNode(Deleted(s, key));
      DeletedValue(kids[i], key);
      ValuesUpdated(kids, i, Deleted(kids[i], key));
  }

  // The pages before and after: the chain is free, the rest of the tree is stored, nothing else has changed.
  ghost predicate Deletes(pages: PageMap, used: set<PageId>, pages': PageMap, used': set<PageId>, s: Stored,
                          s': Stored, c: Chain, pageSize: nat)
  {
    && s'.id == s.id && Stores(pages', s', pageSize) && Separate(s')
    && Ids(c) <= Owned(s) && Owned(s') == Owned(s) - Ids(c) && used' == used - Ids(c)
    && Agree(pages, pages', used - Owned(s))
  }

  // ---- leaves ----

  lemma {:induction false} TotalOfCells(rows: seq<Row>)
    requires AllStorable(CellsOf(rows))
    ensures S.Total(LeafImages(CellsOf(rows))) == CellBytes(rows)
  {
    hide CellOf, LeafCell.Image, CellSize;
    if rows != [] {
      var n := |rows| - 1;
      assert CellsOf(rows)[..n] == CellsOf(rows[..n]);
      assert CellsOf(rows)[n] == CellOf(rows[n]);
      assert LeafImages(CellsOf(rows))[..n] == LeafImages(CellsOf(rows[..n]));
      TotalOfCells(rows[..n]);
    }
  }

  lemma CleanImage(b: seq<byte>, id: PageId, rows: seq<Row>)
    requires id > 1 && CleanLeafPage(b, id, CellsOf(rows))
    ensures LeafImage(b, id, rows, CellBytes(rows))
  {
    hide LeafPage, CellsOf, CellBytes, S.Total, LeafImages, AllStorable;
    TotalOfCells(rows);
  }

  // Rewriting the page in the buffer: exact free space, or nothing changed.
  method DeleteCell(buf: array<byte>, id: PageId, key: u64, ghost rows: seq<Row>, ghost used: nat)
    returns (deleted: bool)
    requires LeafImage(buf[..], id, rows, used) && Ascending(Keys(rows))
    modifies buf
    ensures deleted <==> Has(Keys(rows), key)
    ensures deleted ==> LeafImage(buf[..], id, WithoutKey(rows, key), CellBytes(WithoutKey(rows, key)))
    ensures !deleted ==> buf[..] == old(buf[..])
  {
    hide LeafPage, CleanLeafPage, SameSurroundings, CellsOf, CellBytes, Keys, RowIds, Ascending, Rank, Removed;
    RowKeys(rows);
    deleted := DeleteLeafCellFromPage(buf, id, key, CellsOf(rows), ContentAt(buf.Length, used));
    if deleted {
      CellsRemoved(rows, Rank(Keys(rows), key));
      CleanImage(buf[..], id, WithoutKey(rows, key));
    }
  }

  ghost predicate LeafStored(pages: PageMap, used: set<PageId>, s: Stored, pageSize: nat) {
    && s.StoredLeaf? && Stores(pages, s, pageSize) && Separate(s) && Owned(s) <= used
    && Ascending(Keys(s.rows))
  }

  lemma LeafStoredFacts(pages: PageMap, used: set<PageId>, s: Stored, pageSize: nat)
    requires LeafStored(pages, used, s, pageSize)
    ensures s.StoredLeaf? && Owned(s) == {s.id} + OwnedByRows(s.rows) && Owned(s) <= used && Ascending(Keys(s.rows))
    ensures s.id !in OwnedByRows(s.rows) && RowsApart(s.rows) && RowsSpilled(pages, s.rows)
    ensures LeafAt(pages, s.id, Leaf(s.rows, s.used), pageSize) && s.id > 1
  {
    hide RowsSpilled, RowsApart, LeafPage, CellsOf, Ascending;
  }

  lemma OwnedByRest(pages: PageMap, rows: seq<Row>, key: u64)
    requires Ascending(Keys(rows)) && RowsApart(rows) && RowsSpilled(pages, rows)
    ensures var rest, c := WithoutKey(rows, key), Replaced(rows, key);
            && RowsSpilled(pages, rest) && RowsApart(rest) && OwnedByRows(rest) == OwnedByRows(rows) - Ids(c)
            && Ids(c) <= OwnedByRows(rows)
  {
    hide WithoutKey, Ascending, Rank, Keys, RowSpilled;
    ReplacedFacts(pages, rows, key);
    var rest, c := WithoutKey(rows, key), Replaced(rows, key);
    forall y ensures y in rest <==> y in rows && y.key != key {
      WithoutMembers(rows, key, y);
    }
    forall y | y in rows && y.key != key ensures Ids(y.spill) !! Ids(c) {
      if Has(Keys(rows), key) {
        assert rows[Rank(Keys(rows), key)] in rows;
      }
    }
    forall id | id in OwnedByRows(rows) && id !in Ids(c) ensures id in OwnedByRows(rest) {
      var y :| y in rows && id in y.spill.ids;
      if y.key == key {
        OnlyRowOfKey(rows, y);
        assert false;
      }
    }
    forall id | id in OwnedByRows(rest) ensures id in OwnedByRows(rows) && id !in Ids(c) {
      var y :| y in rest && id in y.spill.ids;
      assert id in Ids(y.spill);
    }
  }

  lemma LeafDeletes(pages: PageMap, used: set<PageId>, pages': PageMap, s: Stored, key: u64, pageSize: nat)
    requires LeafStored(pages, used, s, pageSize)
    requires LeafAt(pages', s.id, Leaf(WithoutKey(s.rows, key), CellBytes(WithoutKey(s.rows, key))), pageSize)
    requires Has(Keys(s.rows), key)
    requires Elsewhere(pages, pages', used, s.id, Replaced(s.rows, key))
    ensures Deletes(pages, used, pages', used - Ids(Replaced(s.rows, key)), s, Deleted(s, key), Replaced(s.rows, key), pageSize)
  {
    hide WithoutKey, CellBytes, Rank, Keys, RowsSpilled, OwnedByRows, RowsApart, LeafPage, CellsOf, Replaced, Has, Ids;
    LeafStoredFacts(pages, used, s, pageSize);
    OwnedByRest(pages, s.rows, key);
    RowsSpilledFrame(pages, pages', WithoutKey(s.rows, key));
  }

  lemma NothingDeleted(pages: PageMap, used: set<PageId>, s: Stored, key: u64, pageSize: nat)
    requires LeafStored(pages, used, s, pageSize) && !Has(Keys(s.rows), key)
    ensures Deletes(pages, used, pages, used, s, Deleted(s, key), Gone(s, key), pageSize)
  {
    hide OnPages, Spilled, Separate, Owned, Has, Keys;
    assert Ids(EMPTY_CHAIN) == {};
  }

  // ---- interior nodes ----

  ghost predicate NodeStored(pages: PageMap, used: set<PageId>, s: Stored, i: nat, pageSize: nat) {
    && s.StoredNode? && i < |s.kids| == |s.seps| + 1
    && Stores(pages, s, pageSize) && Separate(s) && Owned(s) <= used
  }

  lemma NodeStoredFacts(pages: PageMap, used: set<PageId>, s: Stored, i: nat, pageSize: nat)
    requires NodeStored(pages, used, s, i, pageSize)
    ensures s.StoredNode? && i < |s.kids| == |s.seps| + 1
    ensures s.id in used && s.id !in OwnedByKids(s.kids) && KidsApart(s.kids)
    ensures Owned(s) == {s.id} + OwnedByKids(s.kids) && OwnedByKids(s.kids) <= used
    ensures NodeAt(pages, s.id, s.kids, s.seps, pageSize)
    ensures forall k :: 0 <= k < |s.kids| ==>
      Stores(pages, s.kids[k], pageSize) && Separate(s.kids[k]) && Owned(s.kids[k]) <= OwnedByKids(s.kids)
  {
    hide OnPages, Spilled, Separate, Owned, OwnedByKids, KidsApart, NodeImage;
    var nothing := Row(0, [], EMPTY_CHAIN);
    assert Ids(EMPTY_CHAIN) == {};
    NodeReadyFacts(pages, used, s, nothing, i, pageSize);
    forall k | 0 <= k < |s.kids| ensures Spilled(pages, s.kids[k]) {
      SpilledKid(pages, s, k);
    }
  }

  lemma KidDeletes(pages: PageMap, used: set<PageId>, s: Stored, i: nat, pageSize: nat, pages': PageMap,
                   used': set<PageId>, kid: Stored, c: Chain)
    requires NodeStored(pages, used, s, i, pageSize)
    requires Deletes(pages, used, pages', used', s.kids[i], kid, c, pageSize)
    ensures Deletes(pages, used, pages', used', s, StoredNode(s.id, s.kids[i := kid], s.seps), c, pageSize)
  {
    hide OnPages, Spilled, Separate, Owned, OwnedByKids, KidsApart, NodeImage, Ids, NodeStored;
    NodeStoredFacts(pages, used, s, i, pageSize);
    var node := StoredNode(s.id, s.kids[i := kid], s.seps);
    assert NodeAt(pages', s.id, s.kids, s.seps, pageSize);
    SameIds(pages'[s.id], s.id, s.kids, s.seps, i, kid);
    forall k | 0 <= k < |s.kids| && k != i ensures Stores(pages', s.kids[k], pageSize) {
      SiblingApart(s.kids, i, k);
      StoresFrame(pages, pages', s.kids[k], pageSize);
    }
    NodeOnPages(pages', node, pageSize);
    KidsSpilled(pages', node);
    ReplacedAccounts(s.kids, i, kid);
    SeparateNode(node);
    OwnedByNode(node);
  }

  lemma KidsSpilled(pages: PageMap, s: Stored)
    requires s.StoredNode? && forall k :: 0 <= k < |s.kids| ==> Spilled(pages, s.kids[k])
    ensures Spilled(pages, s)
  {
  }

  // ---- delete ----

  ghost predicate Deletable(pages: PageMap, used: set<PageId>, s: Stored, key: u64, lo: int, hi: int, h: nat,
                            pageSize: nat) {
    && Stores(pages, s, pageSize) && Separate(s) && Owned(s) <= used
    && WellFormed(Value(s), lo, hi, h, pageSize) && lo < key <= hi
  }

  lemma DeletableLeaf(pages: PageMap, used: set<PageId>, s: Stored, key: u64, lo: int, hi: int, h: nat, pageSize: nat)
    requires Deletable(pages, used, s, key, lo, hi, h, pageSize) && s.StoredLeaf?
    ensures LeafStored(pages, used, s, pageSize) && Between(s.rows, lo, hi)
  {
    hide OnPages, Spilled, Separate, Owned, CellBytes, Ascending;
    BetweenKeys(s.rows, lo, hi);
  }

  lemma DeletableNode(pages: PageMap, used: set<PageId>, s: Stored, key: u64, lo: int, hi: int, h: nat, pageSize: nat)
    requires Deletable(pages, used, s, key, lo, hi, h, pageSize) && s.StoredNode?
    ensures var i := Rank(s.seps, key);
            && h > 0 && NodeStored(pages, used, s, i, pageSize)
            && Deletable(pages, used, s.kids[i], key, Lower(s.seps, lo, i), Upper(s.seps, hi, i), h - 1, pageSize)
  {
    hide Stores, Separate, Owned, WellFormed, Rank, Value, SeparatorBytes, OwnedByKids, KidsApart, Values, NodeAt,
         Lower, Upper;
    var i := Rank(s.seps, key);
    ValueOfNode(s);
    NodeFacts(Value(s), lo, hi, h, pageSize);
    NodeKid(Value(s), lo, hi, h, pageSize, i);
    RankRange(s.seps, lo, hi, key);
    NodeStoredFacts(pages, used, s, i, pageSize);
  }

  lemma DeletableFacts(pages: PageMap, used: set<PageId>, s: Stored, key: u64, lo: int, hi: int, h: nat, pageSize: nat)
    requires Deletable(pages, used, s, key, lo, hi, h, pageSize)
    ensures OnPages(pages, s, pageSize) && Shaped(Value(s)) && Searchable(Value(s)) && WellFormed(Value(s), lo, hi, h, pageSize)
  {
    hide WellFormed, OnPages, Spilled, Separate, Owned, Value;
    WellFormedIsSearchable(Value(s), lo, hi, h, pageSize);
    SearchableIsShaped(Value(s));
  }

  // Delete the key below page id: the row is gone, its overflow pages are free.
  method DeleteFromSubtree(pager: Pager, id: PageId, key: u64, ghost s: Stored, ghost lo: int, ghost hi: int,
                           ghost h: nat)
    returns (deleted: bool)
    requires pager.Valid() && s.id == id
    requires Deletable(pager.pages, pager.InUse(), s, key, lo, hi, h, pager.pageSize)
    modifies pager
    ensures pager.Valid() && pager.Room() >= old(pager.Room())
    ensures Shaped(Value(s)) && (deleted <==> Lookup(Value(s), key).Some?)
    ensures Value(Deleted(s, key)) == TreeModel.Delete(Value(s), key)
    ensures Deletes(old(pager.pages), old(pager.InUse()), pager.pages, pager.InUse(), s, Deleted(s, key), Gone(s, key),
                    pager.pageSize)
    decreases h
  {
    hide Pager.Valid, Pager.InUse, Pager.Room, Deletable, Deletes, Value, OnPages, NodeImage, Rank, Has, Lookup,
         NodeStored, Searchable, Stores, Separate, Owned;
    ghost var pages, used := pager.pages, pager.InUse();
    DeletableFacts(pages, used, s, key, lo, hi, h, pager.pageSize);
    DeletedValue(s, key);
    var pageType := ReadPageType(pager, id, s);
    if pageType == TableLeaf {
      DeletableLeaf(pages, used, s, key, lo, hi, h, pager.pageSize);
      deleted := DeleteFromLeaf(pager, id, key, s);
      return;
    }
    DeletableNode(pages, used, s, key, lo, hi, h, pager.pageSize);
    ghost var i := Rank(s.seps, key);
    NodeView(pages, s, pager.pageSize);
    SearchInKid(s, key);
    var look := pager.WithPage(id);
    var target, _ := Route(look.value, id, key, s.kids, s.seps);
    deleted := DeleteFromSubtree(pager, target, key, s.kids[i], Lower(s.seps, lo, i), Upper(s.seps, hi, i), h - 1);
    KidDeletes(pages, used, s, i, pager.pageSize, pager.pages, pager.InUse(), Deleted(s.kids[i], key), Gone(s.kids[i], key));
  }

  method DeleteFromLeaf(pager: Pager, id: PageId, key: u64, ghost s: Stored) returns (deleted: bool)
    requires pager.Valid() && s.id == id && LeafStored(pager.pages, pager.InUse(), s, pager.pageSize)
    modifies pager
    ensures pager.Valid() && pager.Room() >= old(pager.Room())
    ensures Shaped(Value(s)) ==> (deleted <==> Lookup(Value(s), key).Some?)
    ensures Deletes(old(pager.pages), old(pager.InUse()), pager.pages, pager.InUse(), s, Deleted(s, key), Gone(s, key),
                    pager.pageSize)
  {
    hide Pager.Valid, Pager.InUse, Pager.Room, Deletes, LeafStored, LeafImage, Rank, Has, Keys, WithoutKey, CellBytes,
         Replaced, Ascending, RowsSpilled, RowsApart, OwnedByRows, Owned, ChainHolds;
    ghost var pages, used := pager.pages, pager.InUse();
    LeafStoredFacts(pages, used, s, pager.pageSize);
    pager.ValidFacts();
    ReplacedFacts(pages, s.rows, key);
    ghost var c := Replaced(s.rows, key);
    var read := pager.ReadPage(id);
    var buf := read.value;
    var overflowToFree := OldOverflow(buf[..], id, key, s.rows, s.used);
    deleted := DeleteCell(buf, id, key, s.rows, s.used);
    if !deleted {
      NothingDeleted(pages, used, s, key, pager.pageSize);
      return;
    }
    var written := pager.WritePage(id, buf);
    ChainUntouched(pages, pager.pages, c, id);
    FreeReplaced(pager, overflowToFree, c);
    LeafDeletes(pages, used, pager.pages, s, key, pager.pageSize);
  }

  // Delete a key from the tree rooted at rootPage.
  method Delete(pager: Pager, rootPage: PageId, key: u64, ghost s: Stored, ghost h: nat) returns (deleted: bool)
    requires pager.Valid() && s.id == rootPage && TreeReady(pager.pages, pager.InUse(), s, h, pager.pageSize)
    modifies pager
    ensures pager.Valid() && pager.Room() >= old(pager.Room())
    ensures deleted <==> key in MapOf(Rows(Value(s)))
    ensures MapOf(Rows(Value(Deleted(s, key)))) == MapOf(Rows(Value(s))) - {key}
    ensures Deletes(old(pager.pages), old(pager.InUse()), pager.pages, pager.InUse(), s, Deleted(s, key), Gone(s, key),
                    pager.pageSize)
    ensures TreeReady(pager.pages, pager.InUse(), Deleted(s, key), h, pager.pageSize)
  {
    hide Pager.Valid, Pager.InUse, Pager.Room, Deletes, Value, OnPages, Spilled, Separate, Owned, WellFormed, MapOf,
         Rows, Lookup, Deleted, Gone, WithoutKey;
    TreeReadyFacts(pager.pages, pager.InUse(), s, h, pager.pageSize);
    LookupFindsScan(Value(s), -1, LAST_KEY, h, pager.pageSize, key);
    DeleteCorrect(Value(s), -1, LAST_KEY, h, pager.pageSize, key);
    RowsBetween(Value(s), -1, LAST_KEY, h, pager.pageSize);
    MapOfWithout(Rows(Value(s)), key, -1, LAST_KEY);
    ghost var pages, used := pager.pages, pager.InUse();
    deleted := DeleteFromSubtree(pager, rootPage, key, s, -1, LAST_KEY, h);
    DeletesKeeps(pages, used, pager.pages, pager.InUse(), s, Deleted(s, key), Gone(s, key), pager.pageSize);
  }

  lemma DeletesKeeps(pages: PageMap, used: set<PageId>, pages': PageMap, used': set<PageId>, s: Stored, s': Stored,
                     c: Chain, pageSize: nat)
    requires Deletes(pages, used, pages', used', s, s', c, pageSize) && Owned(s) <= used
    ensures Stores(pages', s', pageSize) && Separate(s') && Owned(s') <= used'
  {
    hide OnPages, Spilled, Separate, Owned, Ids;
  }
}
