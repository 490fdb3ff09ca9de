// Leaf nodes in the pager: refilling, splitting and inserting (src/btree/engine.rs).
module LeafNodes {
  import opened Wrappers
  import opened Bytes
  import opened Cells
  import opened Keyed
  import opened Pages
  import opened LeafPages
  import opened Paging
  import opened TreeModel
  import opened TreeSizes
  import opened StoredTrees

  function ContentAt(pageSize: nat, used: nat): int {
    pageSize - PAGE_RESERVED_TRAILER - used
  }

  ghost predicate LeafImage(b: seq<byte>, id: PageId, rows: seq<Row>, used: nat) {
    && id > 1
    && used + PAGE_RESERVED_TRAILER <= |b|
    && LeafPage(b, id, CellsOf(rows), ContentAt(|b|, used))
  }

  // Inserting a cell into a page is putting its row into the leaf.
  method InsertCell(buf: array<byte>, id: PageId, c: LeafCell, ghost rows: seq<Row>, ghost used: nat, ghost r: Row)
    returns (ok: bool)
    requires LeafImage(buf[..], id, rows, used) && Ascending(Keys(rows))
    requires c == CellOf(r) && c.Storable()
    modifies buf
    ensures ok <==> LeafFits(rows, used, r, buf.Length)
    ensures ok ==> LeafImage(buf[..], id, PutRow(rows, r), used + CellSize(r))
    ensures !ok ==> buf[..] == old(buf[..])
  {
    hide LeafPage, SameSurroundings, CellSize, Ascending, Put, PutRow, CellOf, Keys, RowIds;
    RowKeys(rows);
    CellsPut(rows, r);
    ok := InsertLeafCellRaw(buf, id, c, CellsOf(rows), ContentAt(buf.Length, used));
  }

  lemma EmptyLeafImage(b: seq<byte>, id: PageId)
    requires id > 1 && PAGE_RESERVED_TRAILER <= |b| && LeafPage(b, id, [], |b| - PAGE_RESERVED_TRAILER)
    ensures LeafImage(b, id, [], 0)
  {
    assert CellsOf([]) == [];
  }

  // A fresh page filled with cells one after the other; refused cells are skipped.
  method BuildLeafPage(pageSize: nat, id: PageId, cells: seq<LeafCell>, ghost rows: seq<Row>)
    returns (buf: array<byte>)
    requires MIN_PAGE <= pageSize < 0x1_0000 && id > 1
    requires cells == CellsOf(rows) && ChainsNumbered(rows)
    ensures fresh(buf) && buf.Length == pageSize
    ensures LeafImage(buf[..], id, Filled(rows, pageSize).rows, Filled(rows, pageSize).used)
  {
    hide LeafImage, SameSurroundings, CellSize, Ascending, PutRow, CellOf, Keys, LeafFits, ChainsNumbered, LeafPage,
         Filled;
    buf := new byte[pageSize](_ => 0);
    InitLeafPage(buf, id);
    EmptyLeafImage(buf[..], id);
    NothingFilledIn(pageSize);
    for i := 0 to |cells|
      invariant LeafImage(buf[..], id, Filled(rows[..i], pageSize).rows, Filled(rows[..i], pageSize).used)
    {
      ghost var t := Filled(rows[..i], pageSize);
      FilledAscends(rows[..i], pageSize);
      NumberedIsStorable(rows, i);
      var ok := InsertCell(buf, id, cells[i], t.rows, t.used, rows[i]);
      FilledStep(rows, i, pageSize);
    }
    SliceAll(rows);
  }

  lemma NothingFilledIn(page: nat)
    ensures Filled([], page) == Leaf([], 0)
  {
  }

  lemma FilledStep(rows: seq<Row>, i: nat, page: nat)
    requires i < |rows|
    ensures var t := Filled(rows[..i], page);
            Filled(rows[..i + 1], page)
            == if LeafFits(t.rows, t.used, rows[i], page) then Leaf(PutRow(t.rows, rows[i]), t.used + CellSize(rows[i])) else t
  {
    hide PutRow, CellSize, LeafFits;
    assert rows[..i + 1][..i] == rows[..i];
  }

  // All cells of a leaf page.
  method ReadCells(b: seq<byte>, id: PageId, numCells: u16, ghost rows: seq<Row>, ghost used: nat)
    returns (cells: seq<LeafCell>)
    requires LeafImage(b, id, rows, used) && numCells == |rows|
    ensures cells == CellsOf(rows)
  {
    hide LeafPage, ReadLeafCell, CellOf, CellsOf;
    cells := [];
    for i := 0 to numCells
      invariant cells == CellsOf(rows)[..i]
    {
      LeafCellRead(b, id, CellsOf(rows), ContentAt(|b|, used), i);
      PrefixSnoc(CellsOf(rows), i);
      cells := cells + [ReadLeafCell(b, id, i).value];
    }
    SliceAll(CellsOf(rows));
  }

  // Page id holds the rows of leaf t.
  ghost predicate LeafAt(pages: PageMap, id: PageId, t: Tree, pageSize: nat)
    requires t.Leaf?
  {
    id in pages && |pages[id]| == pageSize && LeafImage(pages[id], id, t.rows, t.used)
  }

  // A newly allocated page filled with cells.
  method AddLeafPage(pager: Pager, cells: seq<LeafCell>, ghost rows: seq<Row>) returns (id: PageId)
    requires pager.Valid() && pager.Room() > 0 && MIN_PAGE <= pager.pageSize
    requires cells == CellsOf(rows) && ChainsNumbered(rows)
    modifies pager
    ensures pager.Valid() && pager.Room() == old(pager.Room()) - 1
    ensures id !in old(pager.InUse()) && id > 1 && pager.InUse() == old(pager.InUse()) + {id}
    ensures Popped(old(pager.free), old(pager.total), id)
    ensures Agree(old(pager.pages), pager.pages, old(pager.InUse()))
    ensures LeafAt(pager.pages, id, Filled(rows, pager.pageSize), pager.pageSize)
  {
    hide LeafImage, Ascending, CellOf, ChainsNumbered, Pager.Valid, Pager.InUse, Pager.Room, Filled, Popped;
    pager.ValidFacts();
    id := pager.AllocatePage();
    var buf := BuildLeafPage(pager.pageSize, id, cells, rows);
    pager.ValidFacts();
    var written := pager.WritePage(id, buf);
  }

  // An existing page filled anew.
  method RewriteLeafPage(pager: Pager, id: PageId, cells: seq<LeafCell>, ghost rows: seq<Row>)
    requires pager.Valid() && MIN_PAGE <= pager.pageSize && id > 1 && id in pager.InUse()
    requires cells == CellsOf(rows) && ChainsNumbered(rows)
    modifies pager
    ensures pager.Valid() && pager.Room() == old(pager.Room()) && pager.InUse() == old(pager.InUse())
    ensures pager.pages.Keys == old(pager.pages).Keys
    ensures forall x :: x in pager.pages && x != id ==> pager.pages[x] == old(pager.pages)[x]
    ensures LeafAt(pager.pages, id, Filled(rows, pager.pageSize), pager.pageSize)
  {
    hide LeafImage, Ascending, CellOf, ChainsNumbered, Pager.Valid, Pager.InUse, Pager.Room, Filled;
    pager.ValidFacts();
    var buf := BuildLeafPage(pager.pageSize, id, cells, rows);
    var written := pager.WritePage(id, buf);
  }

  method SplitLeafPage(pager: Pager, leftId: PageId, leftBuf: seq<byte>, newCell: LeafCell, ghost rows: seq<Row>,
                       ghost used: nat, ghost r: Row)
    returns (rightId: PageId, splitKey: u64)
    requires pager.Valid() && pager.Room() > 0 && MIN_PAGE <= pager.pageSize
    requires leftId in pager.InUse() && leftId in pager.pages && pager.pages[leftId] == leftBuf
    requires LeafAt(pager.pages, leftId, Leaf(rows, used), pager.pageSize) && Ascending(Keys(rows)) && rows != []
    requires newCell == CellOf(r) && ChainsNumbered(rows) && ChainsNumbered([r])
    modifies pager
    ensures pager.Valid() && pager.Room() == old(pager.Room()) - 1
    ensures rightId !in old(pager.InUse()) && rightId > 1 && pager.InUse() == old(pager.InUse()) + {rightId}
    ensures Popped(old(pager.free), old(pager.total), rightId)
    ensures Agree(old(pager.pages), pager.pages, old(pager.InUse()) - {leftId})
    ensures var o := SplitLeaf(rows, used, r, pager.pageSize);
            && splitKey == o.sep
            && o.tree.Leaf? && LeafAt(pager.pages, leftId, o.tree, pager.pageSize)
            && o.right.Leaf? && LeafAt(pager.pages, rightId, o.right, pager.pageSize)
  {
    hide LeafImage, Ascending, CellOf, Keys, ChainsNumbered, Pager.Valid, Pager.InUse, Pager.Room, Filled,
         ReadPageHeader, ReadLeafCellRowId, Joint, SortedByKey, CellsOf, Popped;
    LeafImageRead(leftBuf, leftId, rows, used);
    var numCells := ReadPageHeader(leftBuf, leftId).value.numCells;
    if numCells >= 2 {
      var lastRowId := ReadLeafCellRowId(leftBuf, leftId, numCells - 1).value;
      if newCell.rowId > lastRowId {
        OneCell(r);
        rightId := AddLeafPage(pager, [newCell], [r]);
        return rightId, lastRowId;
      }
    }
    assert !Appends(rows, r);
    var allCells := ReadCells(leftBuf, leftId, numCells, rows, used);
    allCells := SortedByKey(allCells + [newCell], (c: LeafCell) => c.rowId);
    CellsSorted(rows, r);
    ghost var all := Joint(rows, r);
    var mid := |allCells| / 2;
    JointParts(rows, r, mid);
    splitKey := allCells[mid - 1].rowId;
    rightId := AddLeafPage(pager, allCells[mid..], all[mid..]);
    ghost var between := pager.pages;
    RewriteLeafPage(pager, leftId, allCells[..mid], all[..mid]);
  }

  lemma LeafImageRead(b: seq<byte>, id: PageId, rows: seq<Row>, used: nat)
    requires LeafImage(b, id, rows, used)
    ensures ReadPageHeader(b, id).Ok? && ReadPageHeader(b, id).value.numCells == |rows|
    ensures ReadPageHeader(b, id).value.pageType == TableLeaf
    ensures forall i :: 0 <= i < |rows| ==> ReadLeafCellRowId(b, id, i) == Ok(rows[i].key)
    ensures |b| < 0x1_0000 && id > 1
  {
    hide LeafPage, ReadLeafCellRowId, CellOf, ReadPageHeader;
    LeafPageBounds(b, id, CellsOf(rows), ContentAt(|b|, used));
    forall i | 0 <= i < |rows| ensures ReadLeafCellRowId(b, id, i) == Ok(rows[i].key) {
      LeafCellRead(b, id, CellsOf(rows), ContentAt(|b|, used), i);
    }
  }

  lemma OneCell(r: Row)
    ensures [CellOf(r)] == CellsOf([r])
  {
  }

  lemma JointParts(rows: seq<Row>, r: Row, mid: nat)
    requires ChainsNumbered(rows) && ChainsNumbered([r]) && mid <= |rows| + 1
    ensures var all := Joint(rows, r);
            && |all| == |rows| + 1
            && CellsOf(all)[..mid] == CellsOf(all[..mid]) && CellsOf(all)[mid..] == CellsOf(all[mid..])
            && ChainsNumbered(all[..mid]) && ChainsNumbered(all[mid..])
  {
    hide CellOf, Above, Keys;
    var all := Joint(rows, r);
    assert [r][0] == r;
    assert ChainsNumbered(all);
  }
}
