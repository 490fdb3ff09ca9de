// How densely ever-larger keys fill the leaves, and how many leaves they take.
module Packing {
  import opened Bytes
  import opened Keyed
  import opened TreeModel
  import opened TreeRows
  import opened TreeInvariant
  import opened TreeSizes
  import opened TreeInsertion
  import opened InsertTheorems
  import opened Runs

  // The leaves of a tree, left to right.
  function Leaves(t: Tree): seq<Tree>
    decreases t, 1
  {
    match t
    case Leaf(_, _) => [t]
    case Node(kids, _) => LeavesOf(kids)
  }

  function LeavesOf(kids: seq<Tree>): seq<Tree>
    decreases kids, 0
  {
    if kids == [] then [] else Leaves(kids[0]) + LeavesOf(kids[1..])
  }

  lemma LeavesOfConcat(a: seq<Tree>, b: seq<Tree>)
    ensures LeavesOf(a + b) == LeavesOf(a) + LeavesOf(b)
  {
    if a == [] {
      assert a + b == b;
    } else {
      assert (a + b)[1..] == a[1..] + b;
      LeavesOfConcat(a[1..], b);
    }
  }

  lemma LeavesOfOne(t: Tree)
    ensures LeavesOf([t]) == Leaves(t)
  {
    assert [t][1..] == [];
    assert LeavesOf([t][1..]) == [];
  }

  function OutLeaves(o: Outcome): seq<Tree> {
    match o
    case Whole(t) => Leaves(t)
    case Split(left, right, _) => Leaves(left) + Leaves(right)
  }

  // Bytes of a leaf's live cells with their pointers.
  function Load(l: Tree): nat {
    match l
    case Leaf(rows, _) => CellBytes(rows) + 2 * |rows|
    case Node(_, _) => 0
  }

  // A leaf without dead space; every leaf but the last is loaded beyond C - S.
  ghost predicate Packed(leaves: seq<Tree>, page: nat) {
    && leaves != []
    && (forall i :: 0 <= i < |leaves| ==> leaves[i].Leaf? && leaves[i].used == CellBytes(leaves[i].rows))
    && (forall i :: 0 <= i < |leaves| - 1 ==> Load(leaves[i]) > LeafCapacity(page) - MAX_FOOTPRINT)
  }

  // ---- what a put with a new greatest key does to the leaves ----

  lemma RightmostLeaves(kids: seq<Tree>)
    requires kids != []
    ensures LeavesOf(kids) == LeavesOf(kids[..|kids| - 1]) + Leaves(kids[|kids| - 1])
  {
    FrontAndLast(kids);
    LeavesOfConcat(kids[..|kids| - 1], [kids[|kids| - 1]]);
    LeavesOfOne(kids[|kids| - 1]);
  }

  // Leaves of the outcome of a node whose right child became the outcome o.
  lemma NodeStepLeaves(kids: seq<Tree>, seps: seq<u64>, lo: int, left: Tree, right: Tree, sep: u64, page: nat)
    requires |kids| == |seps| + 1 && Ascending(seps) && SepsFitAlone(seps, page) && page >= 100
    requires Lower(seps, lo, |seps|) < sep
    ensures OutLeaves(NodeStep(kids, seps, |seps|, left, right, sep, page, AsCoded))
         == LeavesOf(kids[..|seps|]) + (Leaves(left) + Leaves(right))
  {
    hide NodeStep, SepsFitAlone, NodeFits, Ascending, Lower, Grown, Leaves;
    var n := |seps|;
    NodeStepKeepsKids(kids, seps, n, left, right, sep, page, AsCoded);
    CodedRight(kids, seps, lo, left, right, sep);
    var (kids', seps') := Grown(kids, seps, n, left, right, sep, AsCoded);
    var mid := |seps'| / 2;
    assert kids' == kids[..n] + [left, right];
    assert [left, right] == [left] + [right];
    LeavesOfConcat(kids[..n], [left, right]);
    LeavesOfConcat([left], [right]);
    LeavesOfOne(left);
    LeavesOfOne(right);
    assert kids' == kids'[..mid + 1] + kids'[mid + 1..];
    LeavesOfConcat(kids'[..mid + 1], kids'[mid + 1..]);
    LeavesOfNode(NodeStep(kids, seps, n, left, right, sep, page, AsCoded), kids', mid);
  }

  lemma LeavesOfNode(o: Outcome, kids: seq<Tree>, mid: nat)
    requires mid < |kids|
    requires o.Whole? ==> o.tree.Node? && o.tree.kids == kids
    requires o.Split? ==> o.tree.Node? && o.right.Node? && o.tree.kids == kids[..mid + 1] && o.right.kids == kids[mid + 1..]
    ensures OutLeaves(o) == if o.Whole? then LeavesOf(kids) else LeavesOf(kids[..mid + 1]) + LeavesOf(kids[mid + 1..])
  {
    hide LeavesOf;
  }

  ghost predicate AllLoaded(leaves: seq<Tree>, page: nat) {
    forall i :: 0 <= i < |leaves| ==>
      leaves[i].Leaf? && leaves[i].used == CellBytes(leaves[i].rows) && Load(leaves[i]) > LeafCapacity(page) - MAX_FOOTPRINT
  }

  lemma PackedParts(front: seq<Tree>, rest: seq<Tree>, page: nat)
    requires rest != []
    ensures Packed(front + rest, page) <==> AllLoaded(front, page) && Packed(rest, page)
  {
    hide Load, CellBytes, LeafCapacity;
    var all := front + rest;
    assert forall i :: 0 <= i < |front| ==> all[i] == front[i];
    assert forall i :: 0 <= i < |rest| ==> all[|front| + i] == rest[i];
  }

  lemma {:induction false} SomeLeaf(t: Tree)
    requires Shaped(t)
    ensures Leaves(t) != []
  {
    match t
    case Leaf(_, _) =>
    case Node(kids, _) => SomeLeaf(kids[0]);
  }

  lemma {:induction false} HighKeyPacks(t: Tree, row: Row, lo: int, hi: int, h: nat, page: nat)
    requires WellFormed(t, lo, hi, h, page) && lo <= hi < row.key && Shaped(t) && page >= MIN_PAGE
    requires Packed(Leaves(t), page)
    ensures Packed(OutLeaves(InsertInto(t, row, page, AsCoded)), page)
    decreases h
  {
    hide WellFormed, Packed, LeavesOf, Rank, LeafFits, SplitLeaf, PutRow, NodeStep, Lower, Upper, AllLoaded;
    match t
    case Leaf(_, _) => HighKeyPacksLeaf(t, row, lo, hi, h, page);
    case Node(kids, seps) =>
      var n := |seps|;
      NodeFacts(t, lo, hi, h, page);
      NodeKid(t, lo, hi, h, page, n);
      AboveSeparators(t, row.key, lo, hi, h, page);
      RightmostLeaves(kids);
      SomeLeaf(kids[n]);
      PackedParts(LeavesOf(kids[..n]), Leaves(kids[n]), page);
      HighKeyPacks(kids[n], row, Lower(seps, lo, n), Upper(seps, hi, n), h - 1, page);
      HighKeyPacksNode(t, row, lo, hi, h, page);
  }

  lemma {:induction false} HighKeyPacksNode(t: Tree, row: Row, lo: int, hi: int, h: nat, page: nat)
    requires WellFormed(t, lo, hi, h, page) && t.Node? && lo <= hi < row.key && Shaped(t) && page >= MIN_PAGE
    requires h > 0 && Rank(t.seps, row.key) == |t.seps| && Upper(t.seps, hi, |t.seps|) == hi
    requires var n := |t.seps|;
             AllLoaded(LeavesOf(t.kids[..n]), page) && Packed(OutLeaves(InsertInto(t.kids[n], row, page, AsCoded)), page)
    ensures Packed(OutLeaves(InsertInto(t, row, page, AsCoded)), page)
  {
    hide WellFormed, Packed, LeavesOf, Rank, NodeStep, Lower, Upper, AllLoaded, SplitLeaf, PutRow, LeafFits, Leaves;
    var kids, seps, n := t.kids, t.seps, |t.seps|;
    NodeFacts(t, lo, hi, h, page);
    NodeKid(t, lo, hi, h, page, n);
    var o := InsertInto(kids[n], row, page, AsCoded);
    PackedNotEmpty(OutLeaves(o), page);
    PackedParts(LeavesOf(kids[..n]), OutLeaves(o), page);
    match o {
      case Whole(kid) =>
        var kids' := kids[n := kid];
        RightmostLeaves(kids');
        assert kids'[..n] == kids[..n];
        WholeLeaves(kids', seps);
      case Split(left, right, sep) =>
        HighSeparator(kids[n], row, Lower(seps, lo, n), hi, h - 1, page);
        NodeStepLeaves(kids, seps, lo, left, right, sep, page);
    }
  }

  lemma WholeLeaves(kids: seq<Tree>, seps: seq<u64>)
    ensures OutLeaves(Whole(Node(kids, seps))) == LeavesOf(kids)
  {
    hide LeavesOf;
  }

  lemma PackedNotEmpty(leaves: seq<Tree>, page: nat)
    requires Packed(leaves, page)
    ensures leaves != []
  {
  }

  lemma HighSeparator(t: Tree, row: Row, lo: int, hi: int, h: nat, page: nat)
    requires WellFormed(t, lo, hi, h, page) && lo <= hi < row.key && Shaped(t) && page >= MIN_PAGE
    ensures var o := InsertInto(t, row, page, AsCoded); o.Split? ==> lo < o.sep
  {
    hide WellFormed, InsertInto;
    Widened(t, lo, hi, row.key, h, page);
    CodedSeparator(t, row, lo, row.key, h, page);
  }

  lemma HighKeyPacksLeaf(l: Tree, row: Row, lo: int, hi: int, h: nat, page: nat)
    requires WellFormed(l, lo, hi, h, page) && l.Leaf? && hi < row.key && Shaped(l) && page >= MIN_PAGE
    requires Packed([l], page)
    ensures Packed(OutLeaves(InsertInto(l, row, page, AsCoded)), page)
  {
    hide CellBytes, CellSize, PutRow, WellFormed, Filled, Joint;
    WellFormedLeaf(l, lo, hi, h, page);
    LeafIsBetween(l, lo, hi, page);
    BelowAll(l.rows, row, lo, hi);
    CellSizeBound(row);
    NoCellBytes();
    assert [l][0] == l;
    PutAtEnd(l.rows, row);
    CellBytesConcat(l.rows, [row]);
    CellBytesOne(row);
    if |l.rows| == 1 {
      CellBytesOne(l.rows[0]);
      CellSizeBound(l.rows[0]);
      assert l.rows == [l.rows[0]];
    }
    if !LeafFits(l.rows, l.used, row, page) {
      assert Appends(l.rows, row);
      OneFits(row, page);
      FilledIsWellFormed([row], hi, row.key, page);
    }
  }

  lemma BelowAll(rows: seq<Row>, row: Row, lo: int, hi: int)
    requires Between(rows, lo, hi) && hi < row.key
    ensures AllBelow(rows, row.key) && Between([row], hi, row.key)
  {
  }

  // ---- runs of ever-larger keys, from an empty table ----

  lemma RootLeaves(t: Tree, row: Row, page: nat)
    requires Shaped(t) && page >= MIN_PAGE
    ensures Leaves(Insert(t, row, page, AsCoded)) == OutLeaves(InsertInto(t, row, page, AsCoded))
  {
    hide InsertInto, FilledNode, Leaves;
    var o := InsertInto(t, row, page, AsCoded);
    if o.Split? {
      RootRows(o, page);
      LeavesOfPair(o.tree, o.right, o.sep);
    }
  }

  lemma LeavesOfPair(a: Tree, b: Tree, sep: u64)
    ensures Leaves(Node([a, b], [sep])) == Leaves(a) + Leaves(b)
  {
    assert [a, b] == [a] + [b];
    LeavesOfConcat([a], [b]);
    LeavesOfOne(a);
    LeavesOfOne(b);
  }

  // Ascending rows: the tree is well-formed, holds exactly the rows, and its leaves are packed.
  lemma {:induction false} LoadedIsPacked(rows: seq<Row>, page: nat) returns (h: nat)
    requires Ascending(Keys(rows)) && page >= MIN_PAGE
    ensures Rows(Loaded(rows, page, AsCoded)) == rows
    ensures WellFormed(Loaded(rows, page, AsCoded), -1, if rows == [] then -1 else rows[|rows| - 1].key, h, page)
    ensures Packed(Leaves(Loaded(rows, page, AsCoded)), page)
  {
    hide Insert, InsertInto, Ascending, Keys, CellBytes;
    if rows == [] {
      h := 0;
      NoCellBytes();
    } else {
      hide WellFormed, Packed, Rows;
      var n := |rows| - 1;
      var front, row := rows[..n], rows[n];
      FrontOfAscending(rows);
      h := LoadedIsPacked(front, page);
      var t := Loaded(front, page, AsCoded);
      var hi: int := if front == [] then -1 else front[|front| - 1].key;
      BeforeLast(rows);
      HighKeyPacks(t, row, -1, hi, h, page);
      RootLeaves(t, row, page);
      HighKeyInsert(t, row, -1, hi, h, page);
      h := if InsertInto(t, row, page, AsCoded).Split? then h + 1 else h;
      assert front + [row] == rows;
    }
  }

  lemma BeforeLast(rows: seq<Row>)
    requires Ascending(Keys(rows))
    ensures |rows| > 1 ==> rows[|rows| - 2].key < rows[|rows| - 1].key
  {
    assert |rows| > 1 ==> Keys(rows)[|rows| - 2] < Keys(rows)[|rows| - 1];
  }

  // ---- counting leaves ----

  function TotalLoad(leaves: seq<Tree>): nat {
    if leaves == [] then 0 else Load(leaves[0]) + TotalLoad(leaves[1..])
  }

  lemma {:induction false} TotalLoadConcat(a: seq<Tree>, b: seq<Tree>)
    ensures TotalLoad(a + b) == TotalLoad(a) + TotalLoad(b)
  {
    if a == [] {
      assert a + b == b;
    } else {
      assert (a + b)[1..] == a[1..] + b;
      TotalLoadConcat(a[1..], b);
    }
  }

  // The leaves carry the rows of the tree and nothing else.
  lemma {:induction false} LoadIsRows(t: Tree)
    ensures TotalLoad(Leaves(t)) == CellBytes(Rows(t)) + 2 * |Rows(t)|
    decreases t, 1
  {
    match t
    case Leaf(_, _) => assert TotalLoad([t][1..]) == 0;
    case Node(kids, _) => LoadIsRowsOf(kids);
  }

  lemma {:induction false} LoadIsRowsOf(kids: seq<Tree>)
    ensures TotalLoad(LeavesOf(kids)) == CellBytes(RowsOf(kids)) + 2 * |RowsOf(kids)|
    decreases kids, 0
  {
    hide CellBytes, Leaves, Rows;
    if kids == [] {
      NoCellBytes();
    } else {
      LoadIsRows(kids[0]);
      LoadIsRowsOf(kids[1..]);
      TotalLoadConcat(Leaves(kids[0]), LeavesOf(kids[1..]));
      CellBytesConcat(Rows(kids[0]), RowsOf(kids[1..]));
    }
  }

  lemma {:induction false} LoadedTotal(leaves: seq<Tree>, page: nat)
    requires AllLoaded(leaves, page) && page >= MIN_PAGE
    ensures |leaves| * (LeafCapacity(page) - MAX_FOOTPRINT + 1) <= TotalLoad(leaves)
  {
    hide CellBytes;
    if leaves != [] {
      assert leaves[0].Leaf?;
      LoadedTotal(leaves[1..], page);
      var c := LeafCapacity(page) - MAX_FOOTPRINT + 1;
      assert |leaves| * c == c + (|leaves| - 1) * c;
    }
  }

  // All leaves but one carry more than C - S bytes of rows each, so n rows with ascending keys take
  // at most their total footprint divided by (C - S + 1), plus one, leaf pages.
  lemma LeafPagesBound(rows: seq<Row>, page: nat)
    requires Ascending(Keys(rows)) && page >= MIN_PAGE
    ensures var n := |Leaves(Loaded(rows, page, AsCoded))|;
            && n > 0
            && (n - 1) * (LeafCapacity(page) - MAX_FOOTPRINT + 1) <= CellBytes(rows) + 2 * |rows|
  {
    hide CellBytes, Loaded, Leaves, Rows, Ascending, LeafCapacity, WellFormed;
    var h := LoadedIsPacked(rows, page);
    var leaves := Leaves(Loaded(rows, page, AsCoded));
    var n := |leaves|;
    PackedNotEmpty(leaves, page);
    FrontAndLast(leaves);
    PackedParts(leaves[..n - 1], [leaves[n - 1]], page);
    LoadedTotal(leaves[..n - 1], page);
    TotalLoadConcat(leaves[..n - 1], [leaves[n - 1]]);
    LoadIsRows(Loaded(rows, page, AsCoded));
  }
}
