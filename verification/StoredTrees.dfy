// Trees as they lie in the pager's pages: which page holds which node, which
// pages carry the overflow of which row, and how that relates to the tree as a value.
module StoredTrees {
  import opened Wrappers
  import opened Bytes
  import opened Cells
  import opened Keyed
  import opened Pages
  import opened LeafPages
  import opened OverflowChains
  import opened TreeModel

  datatype Stored =
    | StoredLeaf(id: PageId, rows: seq<Row>, used: nat)
    | StoredNode(id: PageId, kids: seq<Stored>, seps: seq<u64>)

  // ---- the value of a stored tree ----

  function Value(s: Stored): Tree {
    match s
    case StoredLeaf(_, rows, used) => Leaf(rows, used)
    case StoredNode(_, kids, seps) => Node(seq(|kids|, i requires 0 <= i < |kids| => Value(kids[i])), seps)
  }

  function Values(kids: seq<Stored>): (s: seq<Tree>)
    ensures |s| == |kids|
    ensures forall i :: 0 <= i < |s| ==> s[i] == Value(kids[i])
  {
    seq(|kids|, i requires 0 <= i < |kids| => Value(kids[i]))
  }

  lemma ValueOfNode(s: Stored)
    requires s.StoredNode?
    ensures Value(s) == Node(Values(s.kids), s.seps)
  {
    assert Value(s).kids == Values(s.kids);
  }

  // ---- pages ----

  function CellOf(r: Row): (c: LeafCell)
    ensures |c.payload| == InlineLength(r) && c.rowId == r.key
    ensures c.Size() == CellSize(r)
  {
    LeafCell(r.key, r.value[..InlineLength(r)], if r.spill.ids == [] then None else Some(r.spill.ids[0]))
  }

  function CellsOf(rows: seq<Row>): (s: seq<LeafCell>)
    ensures |s| == |rows|
    ensures forall i :: 0 <= i < |s| ==> s[i] == CellOf(rows[i])
  {
    seq(|rows|, i requires 0 <= i < |rows| => CellOf(rows[i]))
  }

  function EntriesOf(kids: seq<Stored>, seps: seq<u64>): (s: seq<InteriorCell>)
    requires |kids| >= |seps|
    ensures |s| == |seps|
    ensures forall i :: 0 <= i < |s| ==> s[i] == InteriorCell(kids[i].id, seps[i])
  {
    seq(|seps|, i requires 0 <= i < |seps| => InteriorCell(kids[i].id, seps[i]))
  }

  ghost predicate LeafOnPage(pages: PageMap, id: PageId, rows: seq<Row>, used: nat, pageSize: nat) {
    && id > 1 && id in pages && |pages[id]| == pageSize
    && used + PAGE_RESERVED_TRAILER <= pageSize
    && LeafPage(pages[id], id, CellsOf(rows), pageSize - PAGE_RESERVED_TRAILER - used)
  }

  ghost predicate NodeOnPage(pages: PageMap, id: PageId, kids: seq<Stored>, seps: seq<u64>, pageSize: nat) {
    && id > 1 && id in pages && |pages[id]| == pageSize
    && |kids| == |seps| + 1
    && SeparatorBytes(seps) + PAGE_RESERVED_TRAILER <= pageSize
    && InteriorPage(pages[id], id, EntriesOf(kids, seps), kids[|seps|].id,
                    pageSize - PAGE_RESERVED_TRAILER - SeparatorBytes(seps))
  }

  // Every node of the tree is on its page.
  ghost predicate OnPages(pages: PageMap, s: Stored, pageSize: nat)
    decreases s
  {
    match s
    case StoredLeaf(id, rows, used) => LeafOnPage(pages, id, rows, used, pageSize)
    case StoredNode(id, kids, seps) =>
      && NodeOnPage(pages, id, kids, seps, pageSize)
      && forall i :: 0 <= i < |kids| ==> OnPages(pages, kids[i], pageSize)
  }

  // ---- overflow ----

  // The row's chain carries what its cell does not.
  ghost predicate RowSpilled(pages: PageMap, r: Row) {
    && ChainHolds(pages, r.spill)
    && Flatten(r.spill.chunks) == r.value[InlineLength(r)..]
    && (r.spill.ids == [] <==> |r.value| <= MAX_INLINE_PAYLOAD)
  }

  ghost predicate RowsSpilled(pages: PageMap, rows: seq<Row>) {
    forall r :: r in rows ==> RowSpilled(pages, r)
  }

  ghost predicate Spilled(pages: PageMap, s: Stored)
    decreases s
  {
    match s
    case StoredLeaf(_, rows, _) => RowsSpilled(pages, rows)
    case StoredNode(_, kids, _) => forall i :: 0 <= i < |kids| ==> Spilled(pages, kids[i])
  }

  // ---- ownership ----

  ghost function OwnedByRows(rows: seq<Row>): set<PageId> {
    set r, id | r in rows && id in r.spill.ids :: id
  }

  // All pages of a tree: nodes and overflow chains.
  ghost function Owned(s: Stored): set<PageId>
    decreases s
  {
    match s
    case StoredLeaf(id, rows, _) => {id} + OwnedByRows(rows)
    case StoredNode(id, kids, _) => {id} + set i, p | 0 <= i < |kids| && p in Owned(kids[i]) :: p
  }

  ghost function OwnedByKids(kids: seq<Stored>): set<PageId> {
    set i, p | 0 <= i < |kids| && p in Owned(kids[i]) :: p
  }

  // The pages of the nodes alone.
  ghost function Nodes(s: Stored): set<PageId>
    decreases s
  {
    match s
    case StoredLeaf(id, _, _) => {id}
    case StoredNode(id, kids, _) => {id} + set i, p | 0 <= i < |kids| && p in Nodes(kids[i]) :: p
  }

  // The pages of the nodes that hold a cell.
  ghost function Stocked(s: Stored): set<PageId>
    decreases s
  {
    match s
    case StoredLeaf(id, rows, _) => if rows == [] then {} else {id}
    case StoredNode(id, kids, seps) =>
      (if seps == [] then {} else {id}) + set i, p | 0 <= i < |kids| && p in Stocked(kids[i]) :: p
  }

  // The pages of the nodes below the root.
  ghost function Below(s: Stored): set<PageId> {
    match s
    case StoredLeaf(_, _, _) => {}
    case StoredNode(_, kids, _) => set i, p | 0 <= i < |kids| && p in Nodes(kids[i]) :: p
  }

  // The pages of a tree without the root's own.
  ghost function OwnedBelow(s: Stored): set<PageId> {
    match s
    case StoredLeaf(_, rows, _) => OwnedByRows(rows)
    case StoredNode(_, kids, _) => OwnedByKids(kids)
  }

  lemma {:induction false} NodesAreOwned(s: Stored)
    ensures Nodes(s) <= Owned(s)
    decreases s
  {
    match s
    case StoredLeaf(_, _, _) =>
    case StoredNode(_, kids, _) =>
      forall i | 0 <= i < |kids| ensures Nodes(kids[i]) <= Owned(kids[i]) {
        NodesAreOwned(kids[i]);
      }
  }

  ghost predicate RowsApart(rows: seq<Row>) {
    forall r, x :: r in rows && x in rows && r.key != x.key ==> Ids(r.spill) !! Ids(x.spill)
  }

  ghost predicate KidsApart(kids: seq<Stored>) {
    forall i, j :: 0 <= i < j < |kids| ==> Owned(kids[i]) !! Owned(kids[j])
  }

  // No page is referenced twice.
  ghost predicate Separate(s: Stored)
    decreases s
  {
    match s
    case StoredLeaf(id, rows, _) => id !in OwnedByRows(rows) && RowsApart(rows)
    case StoredNode(id, kids, _) =>
      id !in OwnedByKids(kids) && KidsApart(kids) && forall i :: 0 <= i < |kids| ==> Separate(kids[i])
  }

  // Both the nodes and the overflow of a tree.
  ghost predicate Stores(pages: PageMap, s: Stored, pageSize: nat) {
    OnPages(pages, s, pageSize) && Spilled(pages, s)
  }

  // ---- frames ----

  ghost predicate Agree(pages: PageMap, pages': PageMap, ids: set<PageId>) {
    forall id :: id in ids && id in pages ==> id in pages' && pages'[id] == pages[id]
  }

  lemma {:induction false} OnPagesFrame(pages: PageMap, pages': PageMap, s: Stored, pageSize: nat)
    requires OnPages(pages, s, pageSize) && Agree(pages, pages', Nodes(s))
    ensures OnPages(pages', s, pageSize)
    decreases s
  {
    hide LeafPage, InteriorPage;
    match s
    case StoredLeaf(_, _, _) =>
    case StoredNode(_, kids, _) =>
      forall i | 0 <= i < |kids| ensures OnPages(pages', kids[i], pageSize) {
        OnPagesFrame(pages, pages', kids[i], pageSize);
      }
  }

  lemma RowSpilledFrame(pages: PageMap, pages': PageMap, r: Row)
    requires RowSpilled(pages, r) && Agree(pages, pages', Ids(r.spill))
    ensures RowSpilled(pages', r)
  {
    hide OverflowPage;
    ChainParts(pages, r.spill);
    forall id | id in r.spill.ids ensures id in pages' && pages'[id] == pages[id] {
      assert id in Ids(r.spill);
    }
    ChainFrame(pages, pages', r.spill);
  }

  lemma RowsSpilledFrame(pages: PageMap, pages': PageMap, rows: seq<Row>)
    requires RowsSpilled(pages, rows) && Agree(pages, pages', OwnedByRows(rows))
    ensures RowsSpilled(pages', rows)
  {
    hide OverflowPage;
    forall r | r in rows ensures RowSpilled(pages', r) {
      assert RowSpilled(pages, r);
      assert Ids(r.spill) <= OwnedByRows(rows);
      RowSpilledFrame(pages, pages', r);
    }
  }

  lemma {:induction false} SpilledFrame(pages: PageMap, pages': PageMap, s: Stored)
    requires Spilled(pages, s) && Agree(pages, pages', Owned(s))
    ensures Spilled(pages', s)
    decreases s
  {
    hide RowsSpilled;
    match s
    case StoredLeaf(_, rows, _) => RowsSpilledFrame(pages, pages', rows);
    case StoredNode(_, kids, _) =>
      forall i | 0 <= i < |kids| ensures Spilled(pages', kids[i]) {
        SpilledFrame(pages, pages', kids[i]);
      }
  }

  lemma StoresFrame(pages: PageMap, pages': PageMap, s: Stored, pageSize: nat)
    requires Stores(pages, s, pageSize) && Agree(pages, pages', Owned(s))
    ensures Stores(pages', s, pageSize)
  {
    hide OnPages, Spilled, Owned, Nodes;
    NodesAreOwned(s);
    OnPagesFrame(pages, pages', s, pageSize);
    SpilledFrame(pages, pages', s);
  }

  // The pages of a stored tree exist.
  lemma {:induction false} OwnedExist(pages: PageMap, s: Stored, pageSize: nat)
    requires Stores(pages, s, pageSize)
    ensures Owned(s) <= pages.Keys
    ensures s.id > 1 && s.id in Owned(s)
    decreases s
  {
    hide LeafPage, InteriorPage, ChainHolds;
    match s
    case StoredLeaf(_, rows, _) =>
      forall r | r in rows ensures Ids(r.spill) <= pages.Keys {
        assert RowSpilled(pages, r);
        ChainParts(pages, r.spill);
      }
    case StoredNode(_, kids, _) =>
      forall i | 0 <= i < |kids| ensures Owned(kids[i]) <= pages.Keys {
        OwnedExist(pages, kids[i], pageSize);
      }
  }

  // ---- rows and their cells ----

  lemma RowKeys(rows: seq<Row>)
    ensures RowIds(CellsOf(rows)) == Keys(rows)
  {
  }

  lemma CellsInserted(rows: seq<Row>, i: nat, r: Row)
    requires i <= |rows|
    ensures CellsOf(Inserted(rows, i, r)) == Inserted(CellsOf(rows), i, CellOf(r))
  {
    hide CellOf;
  }

  lemma CellsRemoved(rows: seq<Row>, i: nat)
    requires i < |rows|
    ensures CellsOf(Removed(rows, i)) == Removed(CellsOf(rows), i)
  {
    hide CellOf;
  }

  lemma CellsPut(rows: seq<Row>, r: Row)
    ensures CellsOf(PutRow(rows, r)) == Put(CellsOf(rows), CellOf(r))
  {
    hide Rank, CellsOf, Inserted, Removed, Keys, RowIds;
    var i := Rank(Keys(rows), r.key);
    RowKeys(rows);
    if Has(Keys(rows), r.key) {
      CellsRemoved(rows, i);
      CellsInserted(Removed(rows, i), i, r);
    } else {
      CellsInserted(rows, i, r);
    }
  }

  // Pushing the new cell behind the cells of a page and sorting yields the cells of the joint rows.
  lemma CellsSorted(rows: seq<Row>, r: Row)
    requires Ascending(Keys(rows))
    ensures SortedByKey(CellsOf(rows) + [CellOf(r)], (c: LeafCell) => c.rowId) == CellsOf(Joint(rows, r))
  {
    hide Above, SortedByKey, Inserted, CellOf;
    var key := (c: LeafCell) => c.rowId;
    assert KeysOf(CellsOf(rows), key) == Keys(rows);
    PushAndSort(CellsOf(rows), key, CellOf(r));
    CellsInserted(rows, Above(Keys(rows), r.key), r);
  }

  // Overflow pointers are page numbers.
  ghost predicate ChainsNumbered(rows: seq<Row>) {
    forall r :: r in rows ==> CellOf(r).Storable()
  }

  lemma NumberedIsStorable(rows: seq<Row>, i: nat)
    requires ChainsNumbered(rows) && i < |rows|
    ensures CellOf(rows[i]).Storable()
  {
    assert rows[i] in rows;
  }

  lemma SpilledIsNumbered(pages: PageMap, rows: seq<Row>)
    requires RowsSpilled(pages, rows)
    ensures ChainsNumbered(rows)
  {
    hide OverflowPage, Flatten;
    forall r | r in rows ensures CellOf(r).Storable() {
      assert RowSpilled(pages, r);
      ChainParts(pages, r.spill);
    }
  }
}
