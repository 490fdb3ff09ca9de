// Inserting a row into a leaf of a stored tree: replacing, adding, or splitting the page,
// and what happens to the overflow pages of the row that is replaced.
module LeafInsertion {
  import opened Wrappers
  import opened Bytes
  import opened Cells
  import opened Keyed
  import opened Pages
  import opened LeafPages
  import opened Paging
  import opened OverflowChains
  import opened TreeModel
  import opened TreeRows
  import opened TreeInvariant
  import opened TreeSizes
  import opened TreeInsertion
  import opened StoredTrees
  import opened LeafNodes

  // One stored tree, or two divided at a separator.
  datatype StoredOutcome = OneTree(tree: Stored) | TwoTrees(tree: Stored, right: Stored, sep: u64)

  function ValueOf(o: StoredOutcome): Outcome {
    match o
    case OneTree(t) => Whole(Value(t))
    case TwoTrees(t, right, sep) => Split(Value(t), Value(right), sep)
  }

  ghost function Owning(o: StoredOutcome): set<PageId> {
    match o
    case OneTree(t) => Owned(t)
    case TwoTrees(t, right, _) => Owned(t) + Owned(right)
  }

  ghost function NodesOf(o: StoredOutcome): set<PageId> {
    match o
    case OneTree(t) => Nodes(t)
    case TwoTrees(t, right, _) => Nodes(t) + Nodes(right)
  }

  ghost function StockedOf(o: StoredOutcome): set<PageId> {
    match o
    case OneTree(t) => Stocked(t)
    case TwoTrees(t, right, _) => Stocked(t) + Stocked(right)
  }

  // No node of the kid's outcome is lost in the outcome for its parent.
  ghost predicate Carries(oc: StoredOutcome, o: StoredOutcome) {
    NodesOf(oc) <= NodesOf(o) && StockedOf(oc) <= StockedOf(o)
  }

  // The outcome is on its pages, under the page number of the old tree, on pages of the old
  // tree or new ones, and no page of anything else in use has changed or been given away.
  ghost predicate Placed(pages: PageMap, used: set<PageId>, pages': PageMap, used': set<PageId>, s: Stored,
                         o: StoredOutcome, pageSize: nat)
  {
    && o.tree.id == s.id && OnPages(pages', o.tree, pageSize)
    && (o.TwoTrees? ==> OnPages(pages', o.right, pageSize))
    && NodesOf(o) <= used' && NodesOf(o) !! used - Owned(s)
    && s.id !in Below(o.tree) && (o.TwoTrees? ==> s.id !in Nodes(o.right))
    && Agree(pages, pages', used - Owned(s))
    && used - Owned(s) <= used'
  }

  ghost predicate OutcomeSpilled(pages: PageMap, o: StoredOutcome) {
    Spilled(pages, o.tree) && (o.TwoTrees? ==> Spilled(pages, o.right))
  }

  // The rows of the outcome have their overflow, on pages of the old tree, of the new row, or new ones.
  ghost predicate Kept(used: set<PageId>, pages': PageMap, used': set<PageId>, s: Stored, r: Row, o: StoredOutcome) {
    && OutcomeSpilled(pages', o)
    && Owning(o) <= used'
    && Owning(o) !! used - Owned(s) - Ids(r.spill)
    && s.id !in OwnedBelow(o.tree) && (o.TwoTrees? ==> s.id !in Owned(o.right))
  }

  // Pages in use before, without those of the old tree and the new row, and the pages of
  // the outcome are exactly the pages in use afterwards, and none is referenced twice.
  ghost predicate Conserved(used: set<PageId>, used': set<PageId>, s: Stored, r: Row, o: StoredOutcome) {
    && Separate(o.tree)
    && (o.TwoTrees? ==> Separate(o.right) && Owned(o.tree) !! Owned(o.right))
    && Owning(o) !! used - Owned(s) - Ids(r.spill)
    && used' == used - Owned(s) - Ids(r.spill) + Owning(o)
  }

  // The row is an upsert of a spilled row that the split fails to replace.
  ghost predicate LeafDangles(l: Tree, r: Row, page: nat)
    requires l.Leaf?
  {
    && !LeafFits(l.rows, l.used, r, page)
    && Has(Keys(l.rows), r.key)
    && |l.rows[Rank(Keys(l.rows), r.key)].value| > MAX_INLINE_PAYLOAD
    && !LeafTakes(l, r, page)
  }

  // The chain that a put replaces.
  function Replaced(rows: seq<Row>, key: u64): Chain {
    if Has(Keys(rows), key) then rows[Rank(Keys(rows), key)].spill else EMPTY_CHAIN
  }

  // Of the pages of a replaced chain, those in use again are nodes of the outcome; its last page is one
  // of them, with cells in it, when the leaf was full.
  ghost predicate Reused(c: Chain, full: bool, used': set<PageId>, o: StoredOutcome) {
    && Ids(c) * used' <= NodesOf(o)
    && (full && c.ids != [] ==> c.ids[|c.ids| - 1] in NodesOf(o) * StockedOf(o) * used')
  }

  // Everything the leaf step relies on.
  ghost predicate LeafReady(pages: PageMap, used: set<PageId>, s: Stored, r: Row, lo: int, hi: int, pageSize: nat) {
    && s.StoredLeaf?
    && MIN_PAGE <= pageSize
    && Stores(pages, s, pageSize) && Separate(s) && Owned(s) <= used
    && RowSpilled(pages, r) && Ids(r.spill) <= used && Ids(r.spill) !! Owned(s)
    && WellFormed(Value(s), lo, hi, 0, pageSize) && lo < r.key <= hi
  }

  lemma ReplacedFacts(pages: PageMap, rows: seq<Row>, key: u64)
    requires RowsSpilled(pages, rows)
    ensures var c := Replaced(rows, key);
            && ChainHolds(pages, c)
            && Ids(c) <= OwnedByRows(rows)
            && (Has(Keys(rows), key) ==>
                  var x := rows[Rank(Keys(rows), key)];
                  x in rows && x.key == key && (c.ids == [] <==> |x.value| <= MAX_INLINE_PAYLOAD))
  {
    hide Rank, ChainHolds;
    if Has(Keys(rows), key) {
      var x := rows[Rank(Keys(rows), key)];
      assert x in rows && RowSpilled(pages, x);
    } else {
      assert Ids(EMPTY_CHAIN) == {};
      EmptyChainHolds(pages);
    }
  }

  lemma EmptyChainHolds(pages: PageMap)
    ensures ChainHolds(pages, EMPTY_CHAIN)
  {
  }

  // Rows that do not mention the replaced chain any more.
  ghost predicate Rid(rows: seq<Row>, was: seq<Row>, r: Row) {
    forall y :: y in rows ==> y == r || (y in was && (y.key != r.key || Replaced(was, r.key).ids == []))
  }

  lemma PutIsRid(rows: seq<Row>, r: Row)
    requires Ascending(Keys(rows))
    ensures Rid(PutRow(rows, r), rows, r)
  {
    hide PutRow, Keys, Ascending;
    forall y | y in PutRow(rows, r)
      ensures y == r || (y in rows && y.key != r.key)
    {
      PutMembers(rows, r, y);
    }
  }

  // After the replaced chain is freed, the remaining rows still have theirs.
  lemma RidSpilled(pages: PageMap, used: set<PageId>, pages': PageMap, rows: seq<Row>, was: seq<Row>, r: Row,
                   id: PageId)
    requires RowsSpilled(pages, was) && RowsApart(was) && RowSpilled(pages, r) && Rid(rows, was, r)
    requires Ids(r.spill) !! OwnedByRows(was) && id !in OwnedByRows(was) && id !in Ids(r.spill)
    requires Ids(r.spill) <= used && OwnedByRows(was) <= used
    requires Elsewhere(pages, pages', used, id, Replaced(was, r.key))
    ensures RowsSpilled(pages', rows)
    ensures OwnedByRows(rows) <= used - Ids(Replaced(was, r.key))
    ensures OwnedByRows(rows) <= OwnedByRows(was) + Ids(r.spill)
  {
    hide RowSpilled, Rank, Keys;
    var c := Replaced(was, r.key);
    ReplacedFacts(pages, was, r.key);
    forall y | y in rows
      ensures RowSpilled(pages', y)
      ensures Ids(y.spill) <= used - Ids(c) && Ids(y.spill) <= OwnedByRows(was) + Ids(r.spill)
    {
      assert Ids(y.spill) !! Ids(c) && id !in Ids(y.spill) && Ids(y.spill) <= used by {
        if y != r {
          assert Ids(y.spill) <= OwnedByRows(was);
        }
      }
      assert RowSpilled(pages, y);
      RowSpilledFrame(pages, pages', y);
    }
  }

  lemma OwnedByPut(rows: seq<Row>, r: Row)
    requires Ascending(Keys(rows)) && RowsApart(rows)
    requires Ids(r.spill) !! OwnedByRows(rows)
    ensures OwnedByRows(PutRow(rows, r)) == OwnedByRows(rows) - Ids(Replaced(rows, r.key)) + Ids(r.spill)
    ensures RowsApart(PutRow(rows, r))
  {
    hide PutRow, Ascending, Rank, Keys;
    var c := Replaced(rows, r.key);
    forall y ensures y in PutRow(rows, r) <==> y == r || (y in rows && y.key != r.key) {
      PutMembers(rows, r, y);
    }
    forall y | y in rows && y.key != r.key ensures Ids(y.spill) !! Ids(c) && Ids(y.spill) <= OwnedByRows(rows) {
      if Has(Keys(rows), r.key) {
        var x := rows[Rank(Keys(rows), r.key)];
        assert x in rows && x.key == Keys(rows)[Rank(Keys(rows), r.key)];
      }
    }
    forall id | id in OwnedByRows(rows) && id !in Ids(c) ensures id in OwnedByRows(PutRow(rows, r)) {
      var y :| y in rows && id in y.spill.ids;
      if y.key == r.key {
        OnlyRowOfKey(rows, y);
        assert false;
      }
    }
  }

  lemma OnlyRowOfKey(rows: seq<Row>, y: Row)
    requires Ascending(Keys(rows)) && y in rows
    ensures Replaced(rows, y.key) == y.spill
  {
    hide Rank;
    var k :| 0 <= k < |rows| && rows[k] == y;
    assert Keys(rows)[k] == y.key;
    RankIs(Keys(rows), y.key, k);
  }

  // Page accounts of a leaf: the pages in use, the pages of its rows, the pages of the
  // replaced chain, the pages of the new row, the leaf page and a possible new page.
  lemma Accounts(used: set<PageId>, rows: set<PageId>, gone: set<PageId>, added: set<PageId>, id: PageId,
                 more: set<PageId>)
    requires rows <= used && id in used && added <= used && added !! rows
    requires id !in rows && id !in added && gone <= rows && more !! used - gone
    ensures var own := {id} + (rows - gone + added) + more;
            && own !! used - ({id} + rows) - added
            && used - gone + more == used - ({id} + rows) - added + own
  {
  }

  // Pages other than the leaf's own, the replaced chain's and newly used ones are as before.
  ghost predicate Elsewhere(pages: PageMap, pages': PageMap, used: set<PageId>, id: PageId, c: Chain) {
    forall x :: x in pages && x in used && x != id && x !in Ids(c) ==> x in pages' && pages'[x] == pages[x]
  }

  // What LeafReady says about sets.
  lemma ReadyFacts(pages: PageMap, used: set<PageId>, s: Stored, r: Row, lo: int, hi: int, pageSize: nat)
    requires LeafReady(pages, used, s, r, lo, hi, pageSize)
    ensures s.StoredLeaf? && Owned(s) == {s.id} + OwnedByRows(s.rows)
    ensures OwnedByRows(s.rows) <= used && s.id in used && s.id !in OwnedByRows(s.rows) && RowsApart(s.rows)
    ensures Ids(r.spill) <= used && Ids(r.spill) !! OwnedByRows(s.rows) && s.id !in Ids(r.spill)
    ensures RowsSpilled(pages, s.rows) && RowSpilled(pages, r)
    ensures Between(s.rows, lo, hi) && Ascending(Keys(s.rows))
    ensures LeafAt(pages, s.id, Leaf(s.rows, s.used), pageSize)
  {
    hide RowsSpilled, RowSpilled, RowsApart, LeafPage, CellBytes;
    BetweenKeys(s.rows, lo, hi);
  }

  // The leaf steps leave everything else alone.
  lemma LeafPlaced(pages: PageMap, used: set<PageId>, pages': PageMap, used': set<PageId>, s: Stored, r: Row,
                   lo: int, hi: int, pageSize: nat, o: StoredOutcome)
    requires LeafReady(pages, used, s, r, lo, hi, pageSize)
    requires Elsewhere(pages, pages', used, s.id, Replaced(s.rows, r.key))
    requires used - Ids(Replaced(s.rows, r.key)) <= used'
    requires o.tree.StoredLeaf? && o.tree.id == s.id && LeafAt(pages', s.id, Value(o.tree), pageSize)
    requires o.TwoTrees? ==> o.right.StoredLeaf? && LeafAt(pages', o.right.id, Value(o.right), pageSize)
    requires o.TwoTrees? ==> o.right.id in used' && o.right.id !in used - Ids(Replaced(s.rows, r.key))
    ensures Placed(pages, used, pages', used', s, o, pageSize)
  {
    hide LeafAt, OnPages, RowsSpilled, RowSpilled, RowsApart, Ascending, OwnedByRows, Replaced, LeafReady, Between,
         ChainHolds;
    ReadyFacts(pages, used, s, r, lo, hi, pageSize);
    LeafAtIsOnPages(pages', o.tree, pageSize);
    if o.TwoTrees? {
      LeafAtIsOnPages(pages', o.right, pageSize);
    }
    ReplacedFacts(pages, s.rows, r.key);
  }

  lemma LeafAtIsOnPages(pages: PageMap, s: Stored, pageSize: nat)
    requires s.StoredLeaf? && LeafAt(pages, s.id, Value(s), pageSize)
    ensures OnPages(pages, s, pageSize)
  {
    hide LeafPage, CellsOf;
  }

  // The row fits: the tree is one leaf, the replaced chain is gone.
  lemma PutOutcome(pages: PageMap, used: set<PageId>, pages': PageMap, used': set<PageId>, s: Stored, r: Row,
                   lo: int, hi: int, pageSize: nat)
    requires LeafReady(pages, used, s, r, lo, hi, pageSize)
    requires used' == used - Ids(Replaced(s.rows, r.key))
    requires LeafAt(pages', s.id, Leaf(PutRow(s.rows, r), s.used + CellSize(r)), pageSize)
    requires Elsewhere(pages, pages', used, s.id, Replaced(s.rows, r.key))
    ensures var o := OneTree(StoredLeaf(s.id, PutRow(s.rows, r), s.used + CellSize(r)));
            && Placed(pages, used, pages', used', s, o, pageSize)
            && Kept(used, pages', used', s, r, o)
            && Conserved(used, used', s, r, o)
  {
    hide LeafAt, PutRow, CellSize, LeafPage, RowsSpilled, RowSpilled, RowsApart, Ascending, OwnedByRows, Replaced,
         Rid, LeafReady, Between, Placed, Elsewhere, ChainHolds;
    ReadyFacts(pages, used, s, r, lo, hi, pageSize);
    LeafPlaced(pages, used, pages', used', s, r, lo, hi, pageSize,
               OneTree(StoredLeaf(s.id, PutRow(s.rows, r), s.used + CellSize(r))));
    var c, rows := Replaced(s.rows, r.key), PutRow(s.rows, r);
    ReplacedFacts(pages, s.rows, r.key);
    OwnedByPut(s.rows, r);
    PutIsRid(s.rows, r);
    RidSpilled(pages, used, pages', rows, s.rows, r, s.id);
    Accounts(used, OwnedByRows(s.rows), Ids(c), Ids(r.spill), s.id, {});
  }

  // The two leaves after a split.
  function Halves(s: Stored, r: Row, rightId: PageId, pageSize: nat): (o: StoredOutcome)
    requires s.StoredLeaf? && s.rows != []
    ensures o.TwoTrees? && ValueOf(o) == SplitLeaf(s.rows, s.used, r, pageSize)
    ensures o.tree.StoredLeaf? && o.tree.id == s.id && o.right.StoredLeaf? && o.right.id == rightId
  {
    var p := SplitLeaf(s.rows, s.used, r, pageSize);
    TwoTrees(StoredLeaf(s.id, p.tree.rows, p.tree.used), StoredLeaf(rightId, p.right.rows, p.right.used), p.sep)
  }

  // The row does not fit: two leaves.
  lemma SplitOutcome(pages: PageMap, used: set<PageId>, pages': PageMap, used': set<PageId>, s: Stored, r: Row,
                     lo: int, hi: int, pageSize: nat, rightId: PageId)
    requires LeafReady(pages, used, s, r, lo, hi, pageSize) && s.rows != []
    requires !LeafFits(s.rows, s.used, r, pageSize)
    requires rightId !in used - Ids(Replaced(s.rows, r.key)) && rightId > 1
    requires used' == used - Ids(Replaced(s.rows, r.key)) + {rightId}
    requires var o := Halves(s, r, rightId, pageSize);
             LeafAt(pages', s.id, Value(o.tree), pageSize) && LeafAt(pages', rightId, Value(o.right), pageSize)
    requires Elsewhere(pages, pages', used, s.id, Replaced(s.rows, r.key))
    ensures var o := Halves(s, r, rightId, pageSize);
            && Placed(pages, used, pages', used', s, o, pageSize)
            && (!LeafDangles(Value(s), r, pageSize) ==> Kept(used, pages', used', s, r, o))
            && (LeafTakes(Value(s), r, pageSize) ==> Conserved(used, used', s, r, o))
  {
    hide PutRow, CellSize, LeafPage, RowsSpilled, RowSpilled, RowsApart, Ascending, OwnedByRows, Replaced, LeafFits,
         Rid, SplitLeaf, LeafTakes, LeafDangles, Between, LeafReady, Halves, Placed, Conserved, Elsewhere, LeafAt,
         ChainHolds;
    ReadyFacts(pages, used, s, r, lo, hi, pageSize);
    var o := Halves(s, r, rightId, pageSize);
    LeafPlaced(pages, used, pages', used', s, r, lo, hi, pageSize, o);
    ReplacedFacts(pages, s.rows, r.key);
    ReadyValue(pages, used, s, r, lo, hi, pageSize);
    if !LeafDangles(Value(s), r, pageSize) {
      SplitIsRid(pages, s, r, lo, hi, pageSize);
      RidSpilled(pages, used, pages', o.tree.rows, s.rows, r, s.id);
      RidSpilled(pages, used, pages', o.right.rows, s.rows, r, s.id);
    }
    if LeafTakes(Value(s), r, pageSize) {
      SplitConserved(pages, used, used', s, r, lo, hi, pageSize, rightId);
    }
  }

  lemma ReadyValue(pages: PageMap, used: set<PageId>, s: Stored, r: Row, lo: int, hi: int, pageSize: nat)
    requires LeafReady(pages, used, s, r, lo, hi, pageSize)
    ensures WellFormed(Value(s), lo, hi, 0, pageSize) && Value(s) == Leaf(s.rows, s.used)
    ensures lo < r.key <= hi && pageSize >= MIN_PAGE
  {
    hide WellFormed;
  }

  lemma SplitConserved(pages: PageMap, used: set<PageId>, used': set<PageId>, s: Stored, r: Row, lo: int, hi: int,
                       pageSize: nat, rightId: PageId)
    requires LeafReady(pages, used, s, r, lo, hi, pageSize) && s.rows != []
    requires !LeafFits(s.rows, s.used, r, pageSize) && LeafTakes(Value(s), r, pageSize)
    requires rightId !in used - Ids(Replaced(s.rows, r.key))
    requires used' == used - Ids(Replaced(s.rows, r.key)) + {rightId}
    ensures Conserved(used, used', s, r, Halves(s, r, rightId, pageSize))
  {
    hide PutRow, CellSize, RowsSpilled, RowSpilled, RowsApart, Ascending, OwnedByRows, Replaced, LeafFits, Stores,
         WellFormed, SplitLeaf, LeafTakes, Between, LeafReady, Halves, ChainHolds, LeafAt, Conserved, Keys, Rank, Has,
         Separate, Owned;
    ReadyFacts(pages, used, s, r, lo, hi, pageSize);
    var o := Halves(s, r, rightId, pageSize);
    var c := Replaced(s.rows, r.key);
    ReadyValue(pages, used, s, r, lo, hi, pageSize);
    ReplacedFacts(pages, s.rows, r.key);
    CleanSplitRows(Value(s), r, lo, hi, pageSize);
    OwnedByPut(s.rows, r);
    OwnedBySplit(o.tree.rows, o.right.rows, lo, hi);
    Accounts(used, OwnedByRows(s.rows), Ids(c), Ids(r.spill), s.id, {rightId});
    HalvesConserved(used, used', s, r, o, c);
  }

  lemma HalvesConserved(used: set<PageId>, used': set<PageId>, s: Stored, r: Row, o: StoredOutcome, c: Chain)
    requires s.StoredLeaf? && o.TwoTrees? && o.tree.StoredLeaf? && o.right.StoredLeaf? && o.tree.id == s.id
    requires var a, b := OwnedByRows(o.tree.rows), OwnedByRows(o.right.rows);
             var rows, added := OwnedByRows(s.rows), Ids(r.spill);
             var own := {s.id} + (rows - Ids(c) + added) + {o.right.id};
             && a + b == rows - Ids(c) + added && a !! b
             && RowsApart(o.tree.rows) && RowsApart(o.right.rows)
             && s.id !in rows && s.id !in added && s.id in used && rows <= used && added <= used && Ids(c) <= rows
             && added !! rows
             && o.right.id !in used - Ids(c)
             && used' == used - Ids(c) + {o.right.id}
             && own !! used - ({s.id} + rows) - added
             && used' == used - ({s.id} + rows) - added + own
    ensures Conserved(used, used', s, r, o)
  {
    hide RowsApart, OwnedByRows, Ids;
  }

  lemma CleanSplitRows(l: Tree, r: Row, lo: int, hi: int, page: nat)
    requires WellFormed(l, lo, hi, 0, page) && l.Leaf? && lo < r.key <= hi && page >= MIN_PAGE
    requires !LeafFits(l.rows, l.used, r, page) && LeafTakes(l, r, page)
    ensures l.rows != []
    ensures var p := SplitLeaf(l.rows, l.used, r, page);
            && p.tree.Leaf? && p.right.Leaf?
            && p.tree.rows + p.right.rows == PutRow(l.rows, r)
            && Between(p.tree.rows + p.right.rows, lo, hi)
  {
    hide PutRow, LeafFits, WellFormed, LeafTakes;
    LeafIsBetween(l, lo, hi, page);
    SplitLeafCorrect(l, r, lo, hi, page);
    PutBetween(l.rows, r, lo, hi);
  }

  lemma OwnedBySplit(a: seq<Row>, b: seq<Row>, lo: int, hi: int)
    requires Between(a + b, lo, hi) && RowsApart(a + b)
    ensures OwnedByRows(a + b) == OwnedByRows(a) + OwnedByRows(b)
    ensures OwnedByRows(a) !! OwnedByRows(b) && RowsApart(a) && RowsApart(b)
  {
    forall y, z | y in a && z in b ensures Ids(y.spill) !! Ids(z.spill) {
      var i :| 0 <= i < |a| && a[i] == y;
      var j :| 0 <= j < |b| && b[j] == z;
      assert (a + b)[i] == y && (a + b)[|a| + j] == z;
      assert y in a + b && z in a + b && y.key < z.key;
    }
    forall id | id in OwnedByRows(a) ensures id !in OwnedByRows(b) {
      var y :| y in a && id in y.spill.ids;
      assert id in Ids(y.spill);
    }
  }

  // Unless it leaves the replaced row behind, a split only keeps rows that stay.
  lemma SplitIsRid(pages: PageMap, s: Stored, r: Row, lo: int, hi: int, page: nat)
    requires s.StoredLeaf? && WellFormed(Value(s), lo, hi, 0, page) && lo < r.key <= hi && page >= MIN_PAGE
    requires RowsSpilled(pages, s.rows)
    requires !LeafFits(s.rows, s.used, r, page) && !LeafDangles(Leaf(s.rows, s.used), r, page) && s.rows != []
    ensures var p := SplitLeaf(s.rows, s.used, r, page);
            p.tree.Leaf? && p.right.Leaf? && Rid(p.tree.rows, s.rows, r) && Rid(p.right.rows, s.rows, r)
  {
    hide PutRow, LeafFits, LeafTakes, RowsSpilled, Rank, Between;
    var rows := s.rows;
    var p := SplitLeaf(rows, s.used, r, page);
    LeafIsBetween(Value(s), lo, hi, page);
    BetweenKeys(rows, lo, hi);
    ReplacedFacts(pages, rows, r.key);
    if LeafTakes(Leaf(rows, s.used), r, page) {
      CleanSplitRows(Leaf(rows, s.used), r, lo, hi, page);
      PutIsRid(rows, r);
      assert forall y :: y in p.tree.rows ==> y in p.tree.rows + p.right.rows;
      assert forall y :: y in p.right.rows ==> y in p.tree.rows + p.right.rows;
    } else {
      assert Replaced(rows, r.key).ids == [];
      forall y | y in p.tree.rows || y in p.right.rows ensures y == r || y in rows {
        SplitMembers(rows, s.used, r, page, y);
      }
    }
  }

  lemma SplitMembers(rows: seq<Row>, used: nat, r: Row, page: nat, y: Row)
    requires rows != []
    requires var p := SplitLeaf(rows, used, r, page); p.tree.Leaf? && p.right.Leaf? && (y in p.tree.rows || y in p.right.rows)
    ensures y == r || y in rows
  {
    hide Filled, Keys, Above;
    if Appends(rows, r) {
      if y !in rows {
        FilledMembers([r], page, y);
      }
    } else {
      var all := Joint(rows, r);
      var mid := |all| / 2;
      if y in Filled(all[..mid], page).rows {
        FilledMembers(all[..mid], page, y);
      } else {
        FilledMembers(all[mid..], page, y);
      }
      assert y in all;
      InsertedMembers(rows, Above(Keys(rows), r.key), r, y);
    }
  }

  // ---- the leaf case of insert_into_subtree_cow ----

  // The first overflow page of the row that a put would replace.
  method OldOverflow(b: seq<byte>, id: PageId, key: u64, ghost rows: seq<Row>, ghost used: nat)
    returns (overflow: Option<PageId>)
    requires LeafImage(b, id, rows, used) && Ascending(Keys(rows))
    ensures var c := Replaced(rows, key);
            overflow == if c.ids == [] then None else Some(c.ids[0])
  {
    hide LeafPage, Ascending, Keys, RowIds, Rank, Has, ReadLeafCell;
    RowKeys(rows);
    var found := FindLeafCellIndexByKey(b, id, key, CellsOf(rows), ContentAt(|b|, used));
    match found.value {
      case At(idx) =>
        LeafCellRead(b, id, CellsOf(rows), ContentAt(|b|, used), idx);
        overflow := ReadLeafCell(b, id, idx).value.overflow;
      case Absent(_) =>
        overflow := None;
    }
  }

  // modify_page with an insertion: the page changes only if the row fits.
  method TryInsert(pager: Pager, id: PageId, c: LeafCell, ghost rows: seq<Row>, ghost used: nat, ghost r: Row)
    returns (inserted: bool)
    requires pager.Valid() && id in pager.InUse() && LeafAt(pager.pages, id, Leaf(rows, used), pager.pageSize)
    requires Ascending(Keys(rows)) && c == CellOf(r) && c.Storable()
    modifies pager`pages
    ensures pager.Valid() && pager.InUse() == old(pager.InUse()) && pager.Room() == old(pager.Room())
    ensures inserted <==> LeafFits(rows, used, r, pager.pageSize)
    ensures inserted ==> LeafAt(pager.pages, id, Leaf(PutRow(rows, r), used + CellSize(r)), pager.pageSize)
    ensures !inserted ==> pager.pages == old(pager.pages)
    ensures pager.pages.Keys == old(pager.pages).Keys
    ensures forall x :: x in pager.pages && x != id ==> pager.pages[x] == old(pager.pages)[x]
  {
    hide LeafPage, Ascending, Keys, CellOf, LeafFits, PutRow, CellSize, Pager.Valid, Pager.InUse, Pager.Room;
    pager.ValidFacts();
    var read := pager.ReadPage(id);
    var buf := read.value;
    inserted := InsertCell(buf, id, c, rows, used, r);
    var written := pager.WritePage(id, buf);
    assert !inserted ==> pager.pages == old(pager.pages);
  }

  method FreeReplaced(pager: Pager, oldOverflow: Option<PageId>, ghost c: Chain)
    requires pager.Valid() && ChainHolds(pager.pages, c) && Ids(c) <= pager.InUse()
    requires oldOverflow == if c.ids == [] then None else Some(c.ids[0])
    modifies pager`pages, pager`trunk, pager`freeCount, pager`free
    ensures pager.Valid() && pager.InUse() == old(pager.InUse()) - Ids(c) && pager.Room() >= old(pager.Room())
    ensures pager.free == old(pager.free) + c.ids
    ensures pager.pages.Keys == old(pager.pages).Keys
    ensures forall x :: x in pager.InUse() ==> pager.pages[x] == old(pager.pages)[x]
  {
    hide ChainHolds, Pager.Valid, Pager.InUse, Pager.Room, Zeros;
    pager.ValidFacts();
    if oldOverflow.Some? {
      ChainLinked(pager.pages, c);
      var freed := FreeOverflowChain(pager, oldOverflow.value, c.ids, 0);
    } else {
      assert Ids(c) == {};
    }
  }

  method InsertIntoLeaf(pager: Pager, id: PageId, cell: LeafCell, ghost s: Stored, ghost r: Row, ghost lo: int,
                        ghost hi: int)
    returns (split: Option<(PageId, u64)>, ghost o: StoredOutcome)
    requires pager.Valid() && pager.Room() > 0 && s.id == id
    requires LeafReady(pager.pages, pager.InUse(), s, r, lo, hi, pager.pageSize)
    requires cell == CellOf(r)
    modifies pager
    ensures pager.Valid() && pager.Room() >= old(pager.Room()) - 1
    ensures Shaped(Value(s)) && ValueOf(o) == InsertInto(Value(s), r, pager.pageSize, AsCoded)
    ensures split == match o case OneTree(_) => None case TwoTrees(_, right, sep) => Some((right.id, sep))
    ensures Placed(old(pager.pages), old(pager.InUse()), pager.pages, pager.InUse(), s, o, pager.pageSize)
    ensures !LeafDangles(Value(s), r, pager.pageSize) ==> Kept(old(pager.InUse()), pager.pages, pager.InUse(), s, r, o)
    ensures LeafTakes(Value(s), r, pager.pageSize) ==> Conserved(old(pager.InUse()), pager.InUse(), s, r, o)
    ensures Reused(Replaced(s.rows, r.key), !LeafFits(s.rows, s.used, r, pager.pageSize), pager.InUse(), o)
  {
    hide LeafReady, LeafImage, LeafPage, RowSpilled, RowsSpilled, RowsApart, OwnedByRows, Between, Ascending, Keys,
         CellOf, LeafFits, PutRow, CellSize, SplitLeaf, Pager.Valid, Pager.InUse, Pager.Room, ChainHolds, Placed,
         Kept, Conserved, LeafTakes, LeafDangles, Replaced, WellFormed, Stores, Halves, Reused, Popped;
    ghost var pages, used, pageSize := pager.pages, pager.InUse(), pager.pageSize;
    pager.ValidFacts();
    ReadyFacts(pages, used, s, r, lo, hi, pageSize);
    ReadyValue(pages, used, s, r, lo, hi, pageSize);
    WellFormedIsShaped(Value(s), lo, hi, 0, pageSize);
    ReplacedFacts(pages, s.rows, r.key);
    SpilledIsNumbered(pages, s.rows);
    RowNumbered(pages, r);
    ghost var c := Replaced(s.rows, r.key);

    var look := pager.WithPage(id);
    var oldOverflow := OldOverflow(look.value, id, cell.rowId, s.rows, s.used);
    var inserted := TryInsert(pager, id, cell, s.rows, s.used, r);
    ChainUntouched(pages, pager.pages, c, id);
    FreeReplaced(pager, oldOverflow, c);
    ghost var between := pager.pages;
    if inserted {
      PutOutcome(pages, used, between, pager.InUse(), s, r, lo, hi, pageSize);
      o := OneTree(StoredLeaf(s.id, PutRow(s.rows, r), s.used + CellSize(r)));
      NothingReused(used, c, o);
      return None, o;
    }
    ghost var free, total := pager.free, pager.total;
    FullLeafHasRows(Value(s), r, lo, hi, pageSize);
    look := pager.WithPage(id);
    var rightId, splitKey := SplitLeafPage(pager, id, look.value, cell, s.rows, s.used, r);
    SplitOutcome(pages, used, pager.pages, pager.InUse(), s, r, lo, hi, pageSize, rightId);
    o := Halves(s, r, rightId, pageSize);
    RightHasRows(s, r, rightId, pageSize);
    LastReused(used, c, o, free[..|free| - |c.ids|], free, total);
    return Some((rightId, splitKey)), o;
  }

  lemma NothingReused(used: set<PageId>, c: Chain, o: StoredOutcome)
    ensures Reused(c, false, used - Ids(c), o)
  {
  }

  lemma RightHasRows(s: Stored, r: Row, rightId: PageId, pageSize: nat)
    requires s.StoredLeaf? && s.rows != [] && pageSize >= MIN_PAGE
    ensures Halves(s, r, rightId, pageSize).right.rows != []
  {
    hide Filled, Joint;
    var all := Joint(s.rows, r);
    JointLength(s.rows, r);
    if Appends(s.rows, r) {
      FilledSome([r], pageSize);
    } else {
      FilledSome(all[|all| / 2..], pageSize);
    }
  }

  // The right half goes to the page of the replaced chain that was freed last.
  lemma LastReused(used: set<PageId>, c: Chain, o: StoredOutcome, before: seq<PageId>, free: seq<PageId>, total: PageId)
    requires o.TwoTrees? && o.right.StoredLeaf? && o.right.rows != []
    requires free == before + c.ids && Popped(free, total, o.right.id)
    ensures Reused(c, true, used - Ids(c) + {o.right.id}, o)
  {
    assert c.ids != [] ==> free[|free| - 1] == c.ids[|c.ids| - 1];
  }

  lemma RowNumbered(pages: PageMap, r: Row)
    requires RowSpilled(pages, r)
    ensures ChainsNumbered([r]) && CellOf(r).Storable()
  {
    hide OverflowPage;
    ChainParts(pages, r.spill);
  }

  lemma ChainUntouched(pages: PageMap, pages': PageMap, c: Chain, id: PageId)
    requires ChainHolds(pages, c) && id !in Ids(c) && pages'.Keys == pages.Keys
    requires forall x :: x in pages' && x != id ==> pages'[x] == pages[x]
    ensures ChainHolds(pages', c)
  {
    hide OverflowPage;
    ChainParts(pages, c);
    forall x | x in c.ids ensures x in pages' && pages'[x] == pages[x] {
      assert x in Ids(c);
    }
    ChainFrame(pages, pages', c);
  }
}
