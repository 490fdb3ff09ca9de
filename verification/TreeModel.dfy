// The B+Tree as a value: what search, insert, delete and scan of
// src/btree/engine.rs do to the rows, sizes and separators of a tree,
// page numbers and byte layouts left aside.
module TreeModel {
  import opened Wrappers
  import opened Bytes
  import opened Cells
  import opened Keyed
  import V = Varint

  const MAX_INLINE_PAYLOAD: nat := 1024
  const LEAF_HEADER: nat := 8
  const INTERIOR_HEADER: nat := 12

  type Payload = s: seq<byte> | |s| < MAX_SLICE

  // A row and, of interest to the pages only, where the part of its value lies that
  // its cell does not hold.
  datatype Row = Row(key: u64, value: Payload, spill: Chain)

  // used counts the bytes of the cell content area, dead space included.
  // A node has one kid more than separators; the last kid is the right child.
  datatype Tree = Leaf(rows: seq<Row>, used: nat) | Node(kids: seq<Tree>, seps: seq<u64>)

  function Keys(rows: seq<Row>): (s: seq<u64>)
    ensures |s| == |rows|
    ensures forall i :: 0 <= i < |s| ==> s[i] == rows[i].key
  {
    seq(|rows|, i requires 0 <= i < |rows| => rows[i].key)
  }

  // ---- sizes ----

  function InlineLength(row: Row): (n: nat)
    ensures n <= MAX_INLINE_PAYLOAD
  {
    if |row.value| > MAX_INLINE_PAYLOAD then MAX_INLINE_PAYLOAD else |row.value|
  }

  // Bytes of the leaf cell that stores a row.
  function CellSize(row: Row): nat {
    |V.Encoding(InlineLength(row))| + |V.Encoding(row.key)| + InlineLength(row) + 4
  }

  function CellBytes(rows: seq<Row>): nat {
    if rows == [] then 0 else CellBytes(rows[..|rows| - 1]) + CellSize(rows[|rows| - 1])
  }

  // Bytes of the interior cells with these separators.
  function SeparatorBytes(seps: seq<u64>): nat {
    if seps == [] then 0 else SeparatorBytes(seps[..|seps| - 1]) + 4 + |V.Encoding(seps[|seps| - 1])|
  }

  // Room for cells and pointers of a leaf page of the given page size.
  function LeafCapacity(page: nat): int {
    page - PAGE_RESERVED_TRAILER - LEAF_HEADER
  }

  function NodeCapacity(page: nat): int {
    page - PAGE_RESERVED_TRAILER - INTERIOR_HEADER
  }

  predicate LeafFits(rows: seq<Row>, used: nat, row: Row, page: nat) {
    used + 2 * |rows| + CellSize(row) + 2 <= LeafCapacity(page)
  }

  predicate NodeFits(seps: seq<u64>, sep: u64, page: nat) {
    SeparatorBytes(seps) + 2 * |seps| + 4 + |V.Encoding(sep)| + 2 <= NodeCapacity(page)
  }

  // ---- rows in key order ----

  function Rows(t: Tree): seq<Row>
    decreases t, 1
  {
    match t
    case Leaf(rows, _) => rows
    case Node(kids, _) => RowsOf(kids)
  }

  function RowsOf(kids: seq<Tree>): seq<Row>
    decreases kids, 0
  {
    if kids == [] then [] else Rows(kids[0]) + RowsOf(kids[1..])
  }

  function PutRow(rows: seq<Row>, row: Row): seq<Row> {
    var i := Rank(Keys(rows), row.key);
    Inserted(if Has(Keys(rows), row.key) then Removed(rows, i) else rows, i, row)
  }

  function WithoutKey(rows: seq<Row>, key: u64): seq<Row> {
    if Has(Keys(rows), key) then Removed(rows, Rank(Keys(rows), key)) else rows
  }

  function MapOf(rows: seq<Row>): map<u64, Payload> {
    if rows == [] then map[] else MapOf(rows[..|rows| - 1])[rows[|rows| - 1].key := rows[|rows| - 1].value]
  }

  // ---- leaf pages ----

  // Insert the rows one after the other into an empty leaf page; rows that do not fit are lost.
  function Filled(rows: seq<Row>, page: nat): (t: Tree)
    ensures t.Leaf?
  {
    if rows == [] then Leaf([], 0)
    else
      var t := Filled(rows[..|rows| - 1], page);
      var row := rows[|rows| - 1];
      if LeafFits(t.rows, t.used, row, page) then Leaf(PutRow(t.rows, row), t.used + CellSize(row)) else t
  }

  // The rows of a full leaf with the new row, before they are divided by count.
  function Joint(rows: seq<Row>, row: Row): seq<Row> {
    Inserted(rows, Above(Keys(rows), row.key), row)
  }

  predicate Appends(rows: seq<Row>, row: Row) {
    |rows| >= 2 && rows[|rows| - 1].key < row.key
  }

  datatype Outcome = Whole(tree: Tree) | Split(tree: Tree, right: Tree, sep: u64)

  // split_leaf_page: an append leaves the full page alone, everything else is halved by count.
  function SplitLeaf(rows: seq<Row>, used: nat, row: Row, page: nat): Outcome
    requires rows != []
  {
    if Appends(rows, row) then Split(Leaf(rows, used), Filled([row], page), rows[|rows| - 1].key)
    else
      var all := Joint(rows, row);
      var mid := |all| / 2;
      Split(Filled(all[..mid], page), Filled(all[mid..], page), all[mid - 1].key)
  }

  // ---- interior pages ----

  // Insert the cells (kids[i], seps[i]) one after the other into an empty interior
  // page with the given right child; cells that do not fit are lost.
  function FilledEntries<T>(kids: seq<T>, seps: seq<u64>, right: T, page: nat): (r: (seq<T>, seq<u64>))
    requires |kids| == |seps|
    ensures |r.0| == |r.1| + 1
  {
    if seps == [] then ([right], [])
    else
      var n := |seps| - 1;
      var (kids', seps') := FilledEntries(kids[..n], seps[..n], right, page);
      if NodeFits(seps', seps[n], page) then
        var i := Above(seps', seps[n]);
        (Inserted(kids', i, kids[n]), Inserted(seps', i, seps[n]))
      else (kids', seps')
  }

  function FilledNode(kids: seq<Tree>, seps: seq<u64>, right: Tree, page: nat): (t: Tree)
    requires |kids| == |seps|
    ensures t.Node? && |t.kids| == |t.seps| + 1
  {
    var (kids', seps') := FilledEntries(kids, seps, right, page);
    Node(kids', seps')
  }

  // AsCoded: the new cell routes to the old child, and only a right child is repointed.
  // AsMeant: the entry that led to the split child leads to the new child.
  datatype Linking = AsCoded | AsMeant

  // The kids and separators of a node whose kid i became left and right, divided at sep.
  function Grown<T>(kids: seq<T>, seps: seq<u64>, i: nat, left: T, right: T, sep: u64, linking: Linking)
    : (r: (seq<T>, seq<u64>))
    requires |kids| == |seps| + 1 && i <= |seps|
    ensures |r.0| == |r.1| + 1 == |kids| + 1
  {
    var j := Above(seps, sep);
    var relinked := if i == |seps| || linking == AsMeant then kids[i := right] else kids[i := left];
    (Inserted(relinked, j, left), Inserted(seps, j, sep))
  }

  // Give a node its new entry, splitting it in two when the entry does not fit.
  function NodeStep(kids: seq<Tree>, seps: seq<u64>, i: nat, left: Tree, right: Tree, sep: u64, page: nat,
                    linking: Linking): (r: Outcome)
    requires |kids| == |seps| + 1 && i <= |seps|
  {
    var (kids', seps') := Grown(kids, seps, i, left, right, sep, linking);
    if NodeFits(seps, sep, page) then Whole(Node(kids', seps'))
    else
      var mid := |seps'| / 2;
      Split(FilledNode(kids'[..mid], seps'[..mid], kids'[mid], page),
            FilledNode(kids'[mid + 1..|seps'|], seps'[mid + 1..], kids'[|seps'|], page),
            seps'[mid])
  }

  // ---- operations ----

  // Every node of the tree has one kid more than separators.
  ghost predicate Shaped(t: Tree) {
    match t
    case Leaf(rows, used) => rows == [] ==> used == 0
    case Node(kids, seps) => |kids| == |seps| + 1 && forall i :: 0 <= i < |kids| ==> Shaped(kids[i])
  }

  // The row a key leads to, routing from the root.
  function RowFor(t: Tree, key: u64): Option<Row>
    requires Shaped(t)
  {
    match t
    case Leaf(rows, _) => if Has(Keys(rows), key) then Some(rows[Rank(Keys(rows), key)]) else None
    case Node(kids, seps) => RowFor(kids[Rank(seps, key)], key)
  }

  // The value stored under a key.
  function Lookup(t: Tree, key: u64): Option<Payload>
    requires Shaped(t)
  {
    match RowFor(t, key)
    case Some(row) => Some(row.value)
    case None => None
  }

  function InsertInto(t: Tree, row: Row, page: nat, linking: Linking): Outcome
    requires Shaped(t)
    requires page >= MIN_PAGE
  {
    match t
    case Leaf(rows, used) =>
      if LeafFits(rows, used, row, page) then Whole(Leaf(PutRow(rows, row), used + CellSize(row)))
      else CellSizeBound(row); SplitLeaf(rows, used, row, page)
    case Node(kids, seps) =>
      var i := Rank(seps, row.key);
      match InsertInto(kids[i], row, page, linking)
      case Whole(kid) => Whole(Node(kids[i := kid], seps))
      case Split(left, right, sep) => NodeStep(kids, seps, i, left, right, sep, page, linking)
  }

  // insert: a split of the root puts its two halves under a new root.
  function Insert(t: Tree, row: Row, page: nat, linking: Linking): Tree
    requires Shaped(t)
    requires page >= MIN_PAGE
  {
    match InsertInto(t, row, page, linking)
    case Whole(t') => t'
    case Split(left, right, sep) => FilledNode([left], [sep], right, page)
  }

  function Delete(t: Tree, key: u64): Tree
    requires Shaped(t)
  {
    match t
    case Leaf(rows, used) =>
      if Has(Keys(rows), key) then Leaf(WithoutKey(rows, key), CellBytes(WithoutKey(rows, key))) else t
    case Node(kids, seps) =>
      var i := Rank(seps, key);
      Node(kids[i := Delete(kids[i], key)], seps)
  }

  // ---- bounds ----

  const LAST_KEY: int := 0xFFFF_FFFF_FFFF_FFFF

  const MAX_FOOTPRINT: nat := 1041  // the largest leaf cell with its pointer

  // A page that holds two of the largest leaf cells.
  const MIN_PAGE: nat := PAGE_RESERVED_TRAILER + LEAF_HEADER + 2 * MAX_FOOTPRINT

  lemma CellSizeBound(row: Row)
    ensures 6 <= CellSize(row) <= MAX_FOOTPRINT - 2
  {
    V.ShortLength(InlineLength(row));
  }
}
