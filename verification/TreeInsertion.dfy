// What insertion does to well-formed trees: when a split is harmless, what the
// separator contract asks for, and exactly when the code as written delivers it.
module TreeInsertion {
  import opened Wrappers
  import opened Bytes
  import opened Keyed
  import opened TreeModel
  import opened TreeRows
  import opened TreeInvariant
  import opened TreeSizes

  // The leaf a key is routed to.
  function LeafFor(t: Tree, key: u64): (l: Tree)
    requires Shaped(t)
    ensures l.Leaf? && Shaped(l)
  {
    match t
    case Leaf(_, _) => t
    case Node(kids, seps) => LeafFor(kids[Rank(seps, key)], key)
  }

  // The leaf of the key has no room for the row.
  predicate Full(t: Tree, row: Row, page: nat)
    requires Shaped(t)
  {
    var l := LeafFor(t, row.key);
    !LeafFits(l.rows, l.used, row, page)
  }

  // If the leaf has to be divided by count, both halves fit.
  ghost predicate LeafRoomy(l: Tree, row: Row, page: nat)
    requires l.Leaf?
  {
    LeafFits(l.rows, l.used, row, page) || Appends(l.rows, row) || HalvesFit(l.rows, row, page)
  }

  ghost predicate Roomy(t: Tree, row: Row, page: nat)
    requires Shaped(t)
  {
    LeafRoomy(LeafFor(t, row.key), row, page)
  }

  // The leaf is full and holds the key as the last cell of what becomes its left half.
  ghost predicate LeafStraddles(l: Tree, row: Row, page: nat)
    requires l.Leaf?
  {
    && !LeafFits(l.rows, l.used, row, page)
    && Has(Keys(l.rows), row.key)
    && Rank(Keys(l.rows), row.key) == (|l.rows| + 1) / 2 - 1
  }

  ghost predicate Straddles(t: Tree, row: Row, page: nat)
    requires Shaped(t)
  {
    LeafStraddles(LeafFor(t, row.key), row, page)
  }

  // The leaf takes the row as a map does: it has room, or the row is appended to a new leaf, or
  // both halves of a division by count come out right.  A key that is present must lie in one
  // half with its new row, and that half must be able to take the upsert.
  predicate LeafTakes(l: Tree, row: Row, page: nat)
    requires l.Leaf?
  {
    LeafFits(l.rows, l.used, row, page) || Appends(l.rows, row) || SplitTakes(l.rows, row, page)
  }

  predicate SplitTakes(rows: seq<Row>, row: Row, page: nat) {
    if Has(Keys(rows), row.key) then UpsertTakes(rows, row, Rank(Keys(rows), row.key), page) else HalvesFit(rows, row, page)
  }

  // The half that gets both the old row j and the new row of its key.
  predicate UpsertTakes(rows: seq<Row>, row: Row, j: nat, page: nat)
    requires j < |rows|
  {
    var mid := (|rows| + 1) / 2;
    if mid <= j then PairFits(rows[mid..j], rows[j], row, rows[j + 1..], page)
    else j + 2 <= mid && PairFits(rows[..j], rows[j], row, rows[j + 1..mid - 1], page)
  }

  predicate Takes(t: Tree, row: Row, page: nat)
    requires Shaped(t)
  {
    LeafTakes(LeafFor(t, row.key), row, page)
  }

  // The separator that comes up from a subtree if it splits, told by the keys and sizes on the way.
  function PromotedKey(t: Tree, row: Row, page: nat): Option<u64>
    requires Shaped(t) && page >= MIN_PAGE
  {
    match t
    case Leaf(rows, used) =>
      if LeafFits(rows, used, row, page) then None
      else if Appends(rows, row) then Some(rows[|rows| - 1].key)
      else
        CellSizeBound(row);
        var keys := Keys(Joint(rows, row));
        Some(keys[|keys| / 2 - 1])
    case Node(kids, seps) =>
      match PromotedKey(kids[Rank(seps, row.key)], row, page)
      case None => None
      case Some(sep) =>
        if NodeFits(seps, sep, page) then None
        else
          var seps' := Inserted(seps, Above(seps, sep), sep);
          Some(seps'[|seps'| / 2])
  }

  // Some node on the way to the key sees a kid split that is not its right child.
  predicate SplitsMiddle(t: Tree, row: Row, page: nat)
    requires Shaped(t) && page >= MIN_PAGE
  {
    match t
    case Leaf(_, _) => false
    case Node(kids, seps) =>
      var i := Rank(seps, row.key);
      || SplitsMiddle(kids[i], row, page)
      || (i < |seps| && PromotedKey(kids[i], row, page).Some?)
  }

  // An insertion splits a subtree exactly when a key comes up, and that key is the separator.
  lemma {:induction false} PromotedIsSeparator(t: Tree, row: Row, page: nat, linking: Linking)
    requires Shaped(t) && page >= MIN_PAGE
    ensures var o := InsertInto(t, row, page, linking);
            PromotedKey(t, row, page) == if o.Split? then Some(o.sep) else None
  {
    hide Rank, Above, LeafFits, NodeFits, NodeStep, SplitLeaf, Joint, PutRow;
    match t
    case Leaf(rows, used) =>
      if !LeafFits(rows, used, row, page) {
        NoRoomWithoutRows(rows, used, row, page);
        LeafSplitKey(rows, used, row, page);
      }
    case Node(kids, seps) =>
      var i := Rank(seps, row.key);
      PromotedIsSeparator(kids[i], row, page, linking);
      match InsertInto(kids[i], row, page, linking) {
        case Whole(_) =>
        case Split(left, right, sep) => NodeSplitKey(kids, seps, i, left, right, sep, page, linking);
      }
  }

  lemma LeafSplitKey(rows: seq<Row>, used: nat, row: Row, page: nat)
    requires rows != []
    ensures var o := SplitLeaf(rows, used, row, page); var keys := Keys(Joint(rows, row));
            && o.Split? && |keys| == |rows| + 1
            && o.sep == if Appends(rows, row) then rows[|rows| - 1].key else keys[|keys| / 2 - 1]
  {
    hide Filled, Above;
  }

  lemma NodeSplitKey(kids: seq<Tree>, seps: seq<u64>, i: nat, left: Tree, right: Tree, sep: u64, page: nat,
                     linking: Linking)
    requires |kids| == |seps| + 1 && i <= |seps|
    ensures var o := NodeStep(kids, seps, i, left, right, sep, page, linking);
            var seps' := Inserted(seps, Above(seps, sep), sep);
            if NodeFits(seps, sep, page) then o.Whole? else o.Split? && o.sep == seps'[|seps'| / 2]
  {
    hide Above, NodeFits, FilledNode;
  }

  lemma NoRoomWithoutRows(rows: seq<Row>, used: nat, row: Row, page: nat)
    requires !LeafFits(rows, used, row, page) && (rows == [] ==> used == 0) && page >= MIN_PAGE
    ensures rows != []
  {
    hide CellSize;
    CellSizeBound(row);
  }

  // While the leaf has room nothing splits.
  lemma {:induction false} RoomSplitsNothing(t: Tree, row: Row, page: nat)
    requires Shaped(t) && page >= MIN_PAGE && !Full(t, row, page)
    ensures PromotedKey(t, row, page) == None && !SplitsMiddle(t, row, page)
  {
    hide Rank, LeafFits;
    match t
    case Leaf(_, _) =>
    case Node(kids, seps) => RoomSplitsNothing(kids[Rank(seps, row.key)], row, page);
  }

  // In a tree of two levels a middle kid splits exactly when the leaf of the key is full and not the last one.
  lemma {:induction false} MiddleOfTwoLevels(t: Tree, row: Row, page: nat)
    requires Shaped(t) && page >= MIN_PAGE && t.Node? && forall i :: 0 <= i < |t.kids| ==> t.kids[i].Leaf?
    ensures SplitsMiddle(t, row, page) <==> Full(t, row, page) && Rank(t.seps, row.key) < |t.seps|
  {
    hide Rank, LeafFits;
    assert LeafFor(t, row.key) == LeafFor(t.kids[Rank(t.seps, row.key)], row.key);
  }

  // What splits depends on the row through its key and its size only.
  lemma {:induction false} SplitsBySize(t: Tree, row: Row, row': Row, page: nat)
    requires Shaped(t) && page >= MIN_PAGE && row.key == row'.key && CellSize(row) == CellSize(row')
    ensures PromotedKey(t, row, page) == PromotedKey(t, row', page)
    ensures SplitsMiddle(t, row, page) == SplitsMiddle(t, row', page)
    ensures Straddles(t, row, page) == Straddles(t, row', page) && Full(t, row, page) == Full(t, row', page)
  {
    hide Rank, CellSize, Above, NodeFits;
    match t
    case Leaf(rows, _) =>
      var i := Above(Keys(rows), row.key);
      assert Keys(Joint(rows, row)) == Keys(Joint(rows, row'));
    case Node(kids, seps) => SplitsBySize(kids[Rank(seps, row.key)], row, row', page);
  }

  function OutRows(o: Outcome): seq<Row> {
    match o
    case Whole(t) => Rows(t)
    case Split(left, right, _) => Rows(left) + Rows(right)
  }

  // One well-formed tree, or two that share the key range at the separator.
  ghost predicate GoodOutcome(o: Outcome, lo: int, hi: int, h: nat, page: nat) {
    match o
    case Whole(t) => WellFormed(t, lo, hi, h, page)
    case Split(left, right, sep) =>
      lo < sep < hi && WellFormed(left, lo, sep, h, page) && WellFormed(right, sep, hi, h, page)
  }

  // ---- leaves ----

  lemma JointIsPut(rows: seq<Row>, row: Row)
    requires Ascending(Keys(rows)) && !Has(Keys(rows), row.key)
    ensures Joint(rows, row) == PutRow(rows, row)
  {
    hide Above;
    var i := Rank(Keys(rows), row.key);
    AboveIs(Keys(rows), row.key, i);
  }

  // The old and the new row of a key become neighbours.
  lemma JointOfPresent(rows: seq<Row>, row: Row, j: nat)
    requires Ascending(Keys(rows)) && j < |rows| && rows[j].key == row.key
    ensures Has(Keys(rows), row.key) && Rank(Keys(rows), row.key) == j
    ensures Joint(rows, row) == rows[..j] + [rows[j], row] + rows[j + 1..]
    ensures PutRow(rows, row) == rows[..j] + [row] + rows[j + 1..]
  {
    hide Above, Rank;
    var keys := Keys(rows);
    assert keys[j] == row.key;
    RankIs(keys, row.key, j);
    AboveIs(keys, row.key, j + 1);
  }

  lemma RowsAscend(rows: seq<Row>, lo: int, hi: int, m: nat)
    requires Between(rows, lo, hi) && 0 < m < |rows|
    ensures lo < rows[m - 1].key < hi
    ensures Between(rows[..m], lo, rows[m - 1].key) && Between(rows[m..], rows[m - 1].key, hi)
  {
    assert rows[m - 1].key < rows[m].key;
  }

  lemma FilledIsWellFormed(rows: seq<Row>, lo: int, hi: int, page: nat)
    requires Between(rows, lo, hi) && FitsAlone(rows, page)
    ensures Filled(rows, page) == Leaf(rows, CellBytes(rows))
    ensures WellFormed(Filled(rows, page), lo, hi, 0, page)
  {
    BetweenKeys(rows, lo, hi);
    FilledKeepsAll(rows, page);
  }

  // Halving an ascending block of rows by count.
  lemma HalvedCorrect(all: seq<Row>, lo: int, hi: int, page: nat)
    requires Between(all, lo, hi) && |all| >= 2
    requires FitsAlone(all[..|all| / 2], page) && FitsAlone(all[|all| / 2..], page)
    ensures var mid := |all| / 2;
            var o := Split(Filled(all[..mid], page), Filled(all[mid..], page), all[mid - 1].key);
            GoodOutcome(o, lo, hi, 0, page) && OutRows(o) == all
  {
    hide Between, FitsAlone, Filled, WellFormed;
    var mid := |all| / 2;
    RowsAscend(all, lo, hi, mid);
    FilledIsWellFormed(all[..mid], lo, all[mid - 1].key, page);
    FilledIsWellFormed(all[mid..], all[mid - 1].key, hi, page);
    SplitAt(all, mid);
  }

  lemma AppendCorrect(l: Tree, row: Row, lo: int, hi: int, page: nat)
    requires WellFormed(l, lo, hi, 0, page) && l.Leaf? && lo < row.key <= hi && page >= MIN_PAGE
    requires Appends(l.rows, row)
    ensures GoodOutcome(SplitLeaf(l.rows, l.used, row, page), lo, hi, 0, page)
    ensures OutRows(SplitLeaf(l.rows, l.used, row, page)) == PutRow(l.rows, row)
  {
    hide Rank, CellSize, Between;
    var last := l.rows[|l.rows| - 1].key;
    CellSizeBound(row);
    CellBytesOne(row);
    BelowLast(l.rows, row, lo, hi);
    FilledIsWellFormed([row], last, hi, page);
    PutAtEnd(l.rows, row);
  }

  lemma BelowLast(rows: seq<Row>, row: Row, lo: int, hi: int)
    requires Between(rows, lo, hi) && rows != [] && rows[|rows| - 1].key < row.key <= hi
    ensures lo < rows[|rows| - 1].key < hi
    ensures Between(rows, lo, rows[|rows| - 1].key) && AllBelow(rows, row.key)
    ensures Between([row], rows[|rows| - 1].key, hi)
  {
  }

  lemma FilledPairIsWellFormed(a: seq<Row>, prior: Row, newer: Row, b: seq<Row>, lo: int, hi: int, page: nat)
    requires Between(a + [newer] + b, lo, hi) && prior.key == newer.key && page >= MIN_PAGE
    requires FitsAlone(a + [prior] + b, page) && PairFits(a, prior, newer, b, page)
    ensures Rows(Filled(a + [prior, newer] + b, page)) == a + [newer] + b
    ensures WellFormed(Filled(a + [prior, newer] + b, page), lo, hi, 0, page)
  {
    hide Between, CellBytes, FitsAlone, PairFits, Filled, LeafCapacity;
    BetweenKeys(a + [newer] + b, lo, hi);
    FilledPair(a, prior, newer, b, page);
    FilledCarries(a + [prior, newer] + b, page);
    FilledFits(a + [prior, newer] + b, page);
  }

  // The rows of the key's two sides.
  ghost predicate PresentAt(rows: seq<Row>, row: Row, j: nat, lo: int, hi: int, page: nat) {
    j < |rows| && rows[j].key == row.key && Between(rows, lo, hi) && lo < row.key <= hi && FitsAlone(rows, page)
  }

  lemma PresentPut(rows: seq<Row>, row: Row, j: nat, lo: int, hi: int, page: nat)
    requires PresentAt(rows, row, j, lo, hi, page)
    ensures Between(rows[..j] + [row] + rows[j + 1..], lo, hi)
  {
    hide FitsAlone;
    SplitBetween(rows, row, j, j + 1, lo, hi);
  }

  // What lies on both sides of a cut behind, or in front of, the old and the new row of a key.
  lemma LeftParts(rows: seq<Row>, row: Row, j: nat, mid: nat)
    requires j + 2 <= mid <= |rows|
    ensures var all, put := rows[..j] + [rows[j], row] + rows[j + 1..], rows[..j] + [row] + rows[j + 1..];
            var b := rows[j + 1..mid - 1];
            && put[..mid - 1] == rows[..j] + [row] + b && all[..mid] == rows[..j] + [rows[j], row] + b
            && rows[0..mid - 1] == rows[..j] + [rows[j]] + b
            && all[mid..] == put[mid - 1..] == rows[mid - 1..|rows|] && all[mid - 1] == put[mid - 2]
  {
  }

  lemma RightParts(rows: seq<Row>, row: Row, j: nat, mid: nat)
    requires 0 < mid <= j < |rows|
    ensures var all, put := rows[..j] + [rows[j], row] + rows[j + 1..], rows[..j] + [row] + rows[j + 1..];
            var a, b := rows[mid..j], rows[j + 1..];
            && put[mid..] == a + [row] + b && all[mid..] == a + [rows[j], row] + b
            && rows[mid..|rows|] == a + [rows[j]] + b
            && all[..mid] == put[..mid] == rows[0..mid] && all[mid - 1] == put[mid - 1]
  {
  }

  // The cut between the halves leaves the old and the new row of a key on the left.
  lemma UpsertLeft(rows: seq<Row>, row: Row, j: nat, mid: nat, lo: int, hi: int, page: nat)
    requires PresentAt(rows, row, j, lo, hi, page) && page >= MIN_PAGE
    requires j + 2 <= mid <= |rows|
    ensures var all := rows[..j] + [rows[j], row] + rows[j + 1..];
            var put := rows[..j] + [row] + rows[j + 1..];
            var o := Split(Filled(all[..mid], page), Filled(all[mid..], page), all[mid - 1].key);
            && (OutRows(o) == put <==> PairFits(rows[..j], rows[j], row, rows[j + 1..mid - 1], page))
            && (OutRows(o) == put ==> GoodOutcome(o, lo, hi, 0, page))
  {
    hide Between, FitsAlone, Filled, WellFormed, PairFits;
    var all, put := rows[..j] + [rows[j], row] + rows[j + 1..], rows[..j] + [row] + rows[j + 1..];
    var b := rows[j + 1..mid - 1];
    PresentPut(rows, row, j, lo, hi, page);
    PartsFitAlone(rows, 0, mid - 1, page);
    PartsFitAlone(rows, mid - 1, |rows|, page);
    LeftParts(rows, row, j, mid);
    RowsAscend(put, lo, hi, mid - 1);
    BetweenKeys(put[..mid - 1], lo, put[mid - 2].key);
    FilledPair(rows[..j], rows[j], row, b, page);
    FilledIsWellFormed(put[mid - 1..], put[mid - 2].key, hi, page);
    SplitAt(put, mid - 1);
    RowsOfLeaf(put[mid - 1..], CellBytes(put[mid - 1..]));
    CancelBack(Filled(all[..mid], page).rows, put[..mid - 1], put[mid - 1..]);
    if PairFits(rows[..j], rows[j], row, b, page) {
      FilledPairIsWellFormed(rows[..j], rows[j], row, b, lo, put[mid - 2].key, page);
    }
  }

  lemma CancelBack<T>(a: seq<T>, a': seq<T>, b: seq<T>)
    ensures a + b == a' + b <==> a == a'
  {
    if a + b == a' + b {
      assert |a| == |a'|;
      assert a == (a + b)[..|a|] && a' == (a' + b)[..|a'|];
    }
  }

  lemma CancelFront<T>(a: seq<T>, b: seq<T>, b': seq<T>)
    ensures a + b == a + b' <==> b == b'
  {
    if a + b == a + b' {
      assert b == (a + b)[|a|..] && b' == (a + b')[|a|..];
    }
  }

  // The cut leaves both rows of the key on the right.
  lemma UpsertRight(rows: seq<Row>, row: Row, j: nat, mid: nat, lo: int, hi: int, page: nat)
    requires PresentAt(rows, row, j, lo, hi, page) && page >= MIN_PAGE
    requires 0 < mid <= j
    ensures var all := rows[..j] + [rows[j], row] + rows[j + 1..];
            var put := rows[..j] + [row] + rows[j + 1..];
            var o := Split(Filled(all[..mid], page), Filled(all[mid..], page), all[mid - 1].key);
            && (OutRows(o) == put <==> PairFits(rows[mid..j], rows[j], row, rows[j + 1..], page))
            && (OutRows(o) == put ==> GoodOutcome(o, lo, hi, 0, page))
  {
    hide Between, FitsAlone, Filled, WellFormed, PairFits;
    var all, put := rows[..j] + [rows[j], row] + rows[j + 1..], rows[..j] + [row] + rows[j + 1..];
    var a, b := rows[mid..j], rows[j + 1..];
    PresentPut(rows, row, j, lo, hi, page);
    PartsFitAlone(rows, 0, mid, page);
    PartsFitAlone(rows, mid, |rows|, page);
    RightParts(rows, row, j, mid);
    RowsAscend(put, lo, hi, mid);
    BetweenKeys(put[mid..], put[mid - 1].key, hi);
    FilledPair(a, rows[j], row, b, page);
    FilledIsWellFormed(put[..mid], lo, put[mid - 1].key, page);
    SplitAt(put, mid);
    RowsOfLeaf(put[..mid], CellBytes(put[..mid]));
    CancelFront(put[..mid], Filled(all[mid..], page).rows, put[mid..]);
    if PairFits(a, rows[j], row, b, page) {
      FilledPairIsWellFormed(a, rows[j], row, b, put[mid - 1].key, hi, page);
    }
  }

  lemma RowsOfLeaf(rows: seq<Row>, used: nat)
    ensures Rows(Leaf(rows, used)) == rows
  {
  }

  // Dividing a full leaf by count, when it holds the key already.
  lemma SplitPresent(l: Tree, row: Row, lo: int, hi: int, page: nat)
    requires WellFormed(l, lo, hi, 0, page) && l.Leaf? && lo < row.key <= hi && page >= MIN_PAGE
    requires Has(Keys(l.rows), row.key)
    ensures l.rows != [] && !Appends(l.rows, row)
    ensures var o := SplitLeaf(l.rows, l.used, row, page);
            && (OutRows(o) == PutRow(l.rows, row) <==> SplitTakes(l.rows, row, page))
            && (OutRows(o) == PutRow(l.rows, row) ==> GoodOutcome(o, lo, hi, 0, page))
  {
    hide Rank, Above, Filled, WellFormed, Between, FitsAlone, CellSize, Joint, PutRow, GoodOutcome, OutRows, PairFits, Keys,
         Appends;
    var rows, j := l.rows, Rank(Keys(l.rows), row.key);
    LeafIsBetween(l, lo, hi, page);
    LeafFitsAlone(l, lo, hi, page);
    BetweenKeys(rows, lo, hi);
    JointOfPresent(rows, row, j);
    PresentDoesNotAppend(rows, row, j, lo, hi);
    var mid := (|rows| + 1) / 2;
    if mid <= j {
      UpsertRight(rows, row, j, mid, lo, hi, page);
    } else if j + 2 <= mid {
      UpsertLeft(rows, row, j, mid, lo, hi, page);
    } else {
      StraddledHalves(rows, row, j, lo, hi, page);
    }
  }

  lemma LeafFitsAlone(l: Tree, lo: int, hi: int, page: nat)
    requires WellFormed(l, lo, hi, 0, page) && l.Leaf?
    ensures FitsAlone(l.rows, page)
  {
    hide CellBytes, Between;
  }

  lemma PresentDoesNotAppend(rows: seq<Row>, row: Row, j: nat, lo: int, hi: int)
    requires Between(rows, lo, hi) && j < |rows| && rows[j].key == row.key
    ensures !Appends(rows, row)
  {
    assert j < |rows| - 1 ==> rows[j].key < rows[|rows| - 1].key;
  }

  // The cut lies between the two rows of the key: the old one stays, whatever becomes of the right half.
  lemma StraddledHalves(rows: seq<Row>, row: Row, j: nat, lo: int, hi: int, page: nat)
    requires PresentAt(rows, row, j, lo, hi, page)
    ensures var all := rows[..j] + [rows[j], row] + rows[j + 1..];
            var o := Split(Filled(all[..j + 1], page), Filled(all[j + 1..], page), all[j].key);
            Rows(o.tree) == rows[..j + 1] && OutRows(o) != rows[..j] + [row] + rows[j + 1..]
  {
    hide FitsAlone, Filled, Rows, Between;
    var all := rows[..j] + [rows[j], row] + rows[j + 1..];
    StraddledCut(rows, row, j);
    PartsFitAlone(rows, 0, j + 1, page);
    BetweenPart(rows, 0, j + 1, lo, hi);
    FilledIsWellFormed(rows[0..j + 1], lo, hi, page);
    RowsOfLeaf(rows[0..j + 1], CellBytes(rows[0..j + 1]));
    if rows[j] == row {
      PartsFitAlone(rows, j, |rows|, page);
      BetweenPart(rows, j, |rows|, lo, hi);
      FilledIsWellFormed(rows[j..|rows|], lo, hi, page);
      RowsOfLeaf(rows[j..|rows|], CellBytes(rows[j..|rows|]));
    }
    OldStays(rows, row, j, Rows(Filled(all[j + 1..], page)));
  }

  lemma StraddledCut(rows: seq<Row>, row: Row, j: nat)
    requires j < |rows|
    ensures var all := rows[..j] + [rows[j], row] + rows[j + 1..];
            && all[..j + 1] == rows[0..j + 1] == rows[..j + 1]
            && all[j + 1..] == [row] + rows[j + 1..] && (rows[j] == row ==> all[j + 1..] == rows[j..|rows|])
  {
  }

  lemma BetweenPart(rows: seq<Row>, i: nat, j: nat, lo: int, hi: int)
    requires Between(rows, lo, hi) && i <= j <= |rows|
    ensures Between(rows[i..j], lo, hi)
  {
  }

  lemma OldStays(rows: seq<Row>, row: Row, j: nat, right: seq<Row>)
    requires j < |rows| && (rows[j] == row ==> right == rows[j..|rows|])
    ensures rows[..j + 1] + right != rows[..j] + [row] + rows[j + 1..]
  {
    var put := rows[..j] + [row] + rows[j + 1..];
    assert (rows[..j + 1] + right)[j] == rows[j] && put[j] == row;
    assert rows[j] == row ==> |rows[..j + 1] + right| != |put|;
  }

  // Enough room for both halves and no straddling is enough.
  lemma RoomyTakes(l: Tree, row: Row, lo: int, hi: int, page: nat)
    requires WellFormed(l, lo, hi, 0, page) && l.Leaf? && LeafRoomy(l, row, page) && !LeafStraddles(l, row, page)
    ensures LeafTakes(l, row, page)
  {
    hide Rank, Has, LeafFits, Keys, Appends, WellFormed, SplitTakes, HalvesFit;
    if !LeafFits(l.rows, l.used, row, page) && !Appends(l.rows, row) {
      LeafIsBetween(l, lo, hi, page);
      HalvesTake(l.rows, row, lo, hi, page);
    }
  }

  lemma HalvesTake(rows: seq<Row>, row: Row, lo: int, hi: int, page: nat)
    requires Between(rows, lo, hi) && HalvesFit(rows, row, page)
    requires Has(Keys(rows), row.key) ==> Rank(Keys(rows), row.key) != (|rows| + 1) / 2 - 1
    ensures SplitTakes(rows, row, page)
  {
    hide Rank, Between, Above, Keys, FitsAlone, UpsertTakes;
    if Has(Keys(rows), row.key) {
      var j := Rank(Keys(rows), row.key);
      BetweenKeys(rows, lo, hi);
      JointOfPresent(rows, row, j);
      JointLength(rows, row);
      RoomyUpsert(rows, row, j, page);
    }
  }

  lemma RoomyUpsert(rows: seq<Row>, row: Row, j: nat, page: nat)
    requires j < |rows| && j != (|rows| + 1) / 2 - 1
    requires var all, mid := rows[..j] + [rows[j], row] + rows[j + 1..], (|rows| + 1) / 2;
             FitsAlone(all[..mid], page) && FitsAlone(all[mid..], page)
    ensures UpsertTakes(rows, row, j, page)
  {
    hide FitsAlone, PairFits;
    var mid := (|rows| + 1) / 2;
    if mid <= j {
      RightParts(rows, row, j, mid);
      FittingPair(rows[mid..j], rows[j], row, rows[j + 1..], page);
    } else {
      LeftParts(rows, row, j, mid);
      FittingPair(rows[..j], rows[j], row, rows[j + 1..mid - 1], page);
    }
  }

  lemma FittingPair(a: seq<Row>, prior: Row, newer: Row, b: seq<Row>, page: nat)
    requires FitsAlone(a + [prior, newer] + b, page)
    ensures PairFits(a, prior, newer, b, page)
  {
    hide CellBytes;
  }

  // Dividing a full leaf keeps every row and puts the new one in its place, when the leaf takes it.
  lemma SplitLeafCorrect(l: Tree, row: Row, lo: int, hi: int, page: nat)
    requires WellFormed(l, lo, hi, 0, page) && l.Leaf? && lo < row.key <= hi && page >= MIN_PAGE
    requires !LeafFits(l.rows, l.used, row, page) && LeafTakes(l, row, page)
    ensures l.rows != []
    ensures GoodOutcome(SplitLeaf(l.rows, l.used, row, page), lo, hi, 0, page)
    ensures OutRows(SplitLeaf(l.rows, l.used, row, page)) == PutRow(l.rows, row)
  {
    hide Rank, Above, Filled, WellFormed, Between, FitsAlone, CellSize, Joint, PutRow, GoodOutcome, OutRows, PairFits;
    FullLeafHasRows(l, row, lo, hi, page);
    var rows := l.rows;
    LeafIsBetween(l, lo, hi, page);
    BetweenKeys(rows, lo, hi);
    PutBetween(rows, row, lo, hi);
    if Appends(rows, row) {
      AppendCorrect(l, row, lo, hi, page);
    } else if !Has(Keys(rows), row.key) {
      JointIsPut(rows, row);
      JointLength(rows, row);
      HalvedCorrect(PutRow(rows, row), lo, hi, page);
    } else {
      SplitPresent(l, row, lo, hi, page);
    }
  }

  lemma JointLength(rows: seq<Row>, row: Row)
    ensures |Joint(rows, row)| == |rows| + 1
  {
  }

  lemma LeafIsBetween(l: Tree, lo: int, hi: int, page: nat)
    requires WellFormed(l, lo, hi, 0, page) && l.Leaf?
    ensures Between(l.rows, lo, hi)
  {
  }

  lemma FullLeafHasRows(l: Tree, row: Row, lo: int, hi: int, page: nat)
    requires WellFormed(l, lo, hi, 0, page) && l.Leaf? && page >= MIN_PAGE
    requires !LeafFits(l.rows, l.used, row, page)
    ensures l.rows != []
  {
    hide Between, CellSize, CellBytes;
    CellSizeBound(row);
  }

  lemma PutIntoLeaf(l: Tree, row: Row, lo: int, hi: int, page: nat)
    requires WellFormed(l, lo, hi, 0, page) && l.Leaf? && lo < row.key <= hi
    requires LeafFits(l.rows, l.used, row, page)
    ensures WellFormed(Leaf(PutRow(l.rows, row), l.used + CellSize(row)), lo, hi, 0, page)
  {
    hide PutRow, CellSize, CellBytes;
    PutBetween(l.rows, row, lo, hi);
    CellBytesPut(l.rows, row);
  }

  // ---- interior nodes ----

  // Well-formed as a node, its size left aside.
  ghost predicate Ordered(kids: seq<Tree>, seps: seq<u64>, lo: int, hi: int, h: nat, page: nat) {
    && h > 0
    && |kids| == |seps| + 1
    && Ascending(seps)
    && (forall i :: 0 <= i < |seps| ==> lo < seps[i] < hi)
    && forall i :: 0 <= i < |kids| ==> WellFormed(kids[i], Lower(seps, lo, i), Upper(seps, hi, i), h - 1, page)
  }

  lemma OrderedAndFitting(kids: seq<Tree>, seps: seq<u64>, lo: int, hi: int, h: nat, page: nat)
    ensures WellFormed(Node(kids, seps), lo, hi, h, page)
       <==> Ordered(kids, seps, lo, hi, h, page) && SepsFitAlone(seps, page)
  {
    hide SeparatorBytes;
  }

  // The entry an orderly split asks for: kid i becomes left and right around sep.
  function Divided<T>(kids: seq<T>, i: nat, left: T, right: T): seq<T>
    requires i < |kids|
  {
    kids[..i] + [left, right] + kids[i + 1..]
  }

  lemma AboveSplit(seps: seq<u64>, lo: int, hi: int, i: nat, sep: u64)
    requires Ascending(seps) && i <= |seps| && Lower(seps, lo, i) < sep < Upper(seps, hi, i)
    ensures Above(seps, sep) == i
  {
    hide Above;
    forall j | 0 <= j < i ensures seps[j] <= sep {
      assert j < i - 1 ==> seps[j] < seps[i - 1];
    }
    AboveIs(seps, sep, i);
  }

  lemma DividedOrdered(kids: seq<Tree>, seps: seq<u64>, lo: int, hi: int, h: nat, page: nat, i: nat, left: Tree,
                       right: Tree, sep: u64)
    requires Ordered(kids, seps, lo, hi, h, page) && i <= |seps|
    requires Lower(seps, lo, i) < sep < Upper(seps, hi, i)
    requires WellFormed(left, Lower(seps, lo, i), sep, h - 1, page)
    requires WellFormed(right, sep, Upper(seps, hi, i), h - 1, page)
    ensures Ordered(Divided(kids, i, left, right), Inserted(seps, i, sep), lo, hi, h, page)
  {
    hide WellFormed;
    var kids', seps' := Divided(kids, i, left, right), Inserted(seps, i, sep);
    assert lo < sep < hi by {
      assert i > 0 ==> lo < seps[i - 1];
      assert i < |seps| ==> seps[i] < hi;
    }
    InsertedAscending(seps, lo, hi, i, sep);
    forall k | 0 <= k < |kids'|
      ensures WellFormed(kids'[k], Lower(seps', lo, k), Upper(seps', hi, k), h - 1, page)
    {
      if k < i {
        assert kids'[k] == kids[k];
      } else if k > i + 1 {
        assert kids'[k] == kids[k - 1];
      }
    }
  }

  lemma InsertedAscending(seps: seq<u64>, lo: int, hi: int, i: nat, sep: u64)
    requires Ascending(seps) && i <= |seps| && Lower(seps, lo, i) < sep < Upper(seps, hi, i)
    ensures Ascending(Inserted(seps, i, sep))
  {
    var seps' := Inserted(seps, i, sep);
    forall a, b | 0 <= a < b < |seps'| ensures seps'[a] < seps'[b] {
      assert a < i - 1 ==> seps[a] < seps[i - 1];
      assert b > i + 1 ==> seps[i] < seps[b - 1];
    }
  }

  lemma OrderedHalves(kids: seq<Tree>, seps: seq<u64>, lo: int, hi: int, h: nat, page: nat, mid: nat)
    requires Ordered(kids, seps, lo, hi, h, page) && mid < |seps|
    ensures lo < seps[mid] < hi
    ensures Ordered(kids[..mid + 1], seps[..mid], lo, seps[mid], h, page)
    ensures Ordered(kids[mid + 1..], seps[mid + 1..], seps[mid], hi, h, page)
  {
    hide WellFormed;
    OrderedPrefix(kids, seps, lo, hi, h, page, mid);
    OrderedSuffix(kids, seps, lo, hi, h, page, mid);
  }

  lemma OrderedPrefix(kids: seq<Tree>, seps: seq<u64>, lo: int, hi: int, h: nat, page: nat, mid: nat)
    requires Ordered(kids, seps, lo, hi, h, page) && mid < |seps|
    ensures Ordered(kids[..mid + 1], seps[..mid], lo, seps[mid], h, page)
  {
    hide WellFormed;
    var kids', seps' := kids[..mid + 1], seps[..mid];
    forall k | 0 <= k < |kids'|
      ensures WellFormed(kids'[k], Lower(seps', lo, k), Upper(seps', seps[mid], k), h - 1, page)
    {
      assert WellFormed(kids[k], Lower(seps, lo, k), Upper(seps, hi, k), h - 1, page);
    }
  }

  lemma OrderedSuffix(kids: seq<Tree>, seps: seq<u64>, lo: int, hi: int, h: nat, page: nat, mid: nat)
    requires Ordered(kids, seps, lo, hi, h, page) && mid < |seps|
    ensures Ordered(kids[mid + 1..], seps[mid + 1..], seps[mid], hi, h, page)
  {
    hide WellFormed;
    var kids', seps' := kids[mid + 1..], seps[mid + 1..];
    forall k | 0 <= k < |kids'|
      ensures WellFormed(kids'[k], Lower(seps', seps[mid], k), Upper(seps', hi, k), h - 1, page)
    {
      assert WellFormed(kids[mid + 1 + k], Lower(seps, lo, mid + 1 + k), Upper(seps, hi, mid + 1 + k), h - 1, page);
    }
  }

  // The two pages of a divided node, when nothing is lost in refilling them.
  lemma DividedEntries<T>(kids: seq<T>, seps: seq<u64>, mid: nat, page: nat)
    requires |kids| == |seps| + 1 && mid < |seps| && NotDescending(seps)
    requires SepsFitAlone(seps[..mid], page) && SepsFitAlone(seps[mid + 1..], page)
    ensures FilledEntries(kids[..mid], seps[..mid], kids[mid], page) == (kids[..mid + 1], seps[..mid])
    ensures FilledEntries(kids[mid + 1..|seps|], seps[mid + 1..], kids[|seps|], page) == (kids[mid + 1..], seps[mid + 1..])
  {
    hide SepsFitAlone, FilledEntries, NotDescending;
    PartsNotDescending(seps, mid);
    FilledEntriesKeepsAll(kids[..mid], seps[..mid], kids[mid], page);
    PrefixSnoc(kids, mid);
    FilledEntriesKeepsAll(kids[mid + 1..|seps|], seps[mid + 1..], kids[|seps|], page);
    SuffixSnoc(kids, mid + 1);
  }

  lemma DividedPages(kids: seq<Tree>, seps: seq<u64>, mid: nat, page: nat)
    requires |kids| == |seps| + 1 && mid < |seps| && NotDescending(seps)
    requires SepsFitAlone(seps[..mid], page) && SepsFitAlone(seps[mid + 1..], page)
    ensures FilledNode(kids[..mid], seps[..mid], kids[mid], page) == Node(kids[..mid + 1], seps[..mid])
    ensures FilledNode(kids[mid + 1..|seps|], seps[mid + 1..], kids[|seps|], page) == Node(kids[mid + 1..], seps[mid + 1..])
  {
    hide SepsFitAlone, FilledEntries, NotDescending;
    DividedEntries(kids, seps, mid, page);
  }

  lemma PartsNotDescending(seps: seq<u64>, mid: nat)
    requires NotDescending(seps) && mid < |seps|
    ensures NotDescending(seps[..mid]) && NotDescending(seps[mid + 1..])
  {
  }

  // Whatever a node step links, dividing the page loses none of its kids.
  lemma NodeStepKeepsKids(kids: seq<Tree>, seps: seq<u64>, i: nat, left: Tree, right: Tree, sep: u64, page: nat,
                          linking: Linking)
    requires |kids| == |seps| + 1 && i <= |seps| && Ascending(seps) && SepsFitAlone(seps, page) && page >= 100
    ensures var (kids', seps') := Grown(kids, seps, i, left, right, sep, linking);
            var mid := |seps'| / 2;
            NodeStep(kids, seps, i, left, right, sep, page, linking)
            == if NodeFits(seps, sep, page) then Whole(Node(kids', seps'))
               else Split(Node(kids'[..mid + 1], seps'[..mid]), Node(kids'[mid + 1..], seps'[mid + 1..]), seps'[mid])
    ensures OutRows(NodeStep(kids, seps, i, left, right, sep, page, linking))
         == RowsOf(Grown(kids, seps, i, left, right, sep, linking).0)
  {
    hide FilledNode, SepsFitAlone, NodeFits, Above, Ascending, NotDescending, Inserted, RowsOf;
    var (kids', seps') := Grown(kids, seps, i, left, right, sep, linking);
    var mid := |seps'| / 2;
    InteriorHalvesFit(seps, Above(seps, sep), sep, page);
    JoinedNotDescending(seps, sep);
    DividedPages(kids', seps', mid, page);
    SplitAt(kids', mid + 1);
    RowsOfConcat(kids'[..mid + 1], kids'[mid + 1..]);
  }

  lemma JoinedNotDescending(seps: seq<u64>, sep: u64)
    requires Ascending(seps)
    ensures NotDescending(Inserted(seps, Above(seps, sep), sep))
  {
    hide Above;
    var i := Above(seps, sep);
    var seps' := Inserted(seps, i, sep);
    forall a, b | 0 <= a < b < |seps'| ensures seps'[a] <= seps'[b] {
      if b > i {
        assert b > i + 1 ==> seps[i] < seps[b - 1];
      }
    }
  }

  // Linking as the separator contract asks, or splitting the right child, yields the divided node.
  lemma GrownIsDivided(kids: seq<Tree>, seps: seq<u64>, lo: int, hi: int, i: nat, left: Tree, right: Tree,
                       sep: u64, linking: Linking)
    requires |kids| == |seps| + 1 && i <= |seps| && Ascending(seps)
    requires Lower(seps, lo, i) < sep < Upper(seps, hi, i)
    requires linking == AsMeant || i == |seps|
    ensures Grown(kids, seps, i, left, right, sep, linking) == (Divided(kids, i, left, right), Inserted(seps, i, sep))
  {
    hide Above;
    AboveSplit(seps, lo, hi, i, sep);
    assert Inserted(kids[i := right], i, left) == Divided(kids, i, left, right);
  }

  // Splitting the page of a well-formed node leaves two well-formed nodes around the promoted key.
  lemma NodeStepCorrect(t: Tree, lo: int, hi: int, h: nat, page: nat, i: nat, left: Tree, right: Tree, sep: u64,
                        linking: Linking)
    requires WellFormed(t, lo, hi, h, page) && t.Node? && h > 0 && i < |t.kids| == |t.seps| + 1 && page >= 100
    requires GoodOutcome(Split(left, right, sep), Lower(t.seps, lo, i), Upper(t.seps, hi, i), h - 1, page)
    requires linking == AsMeant || i == |t.seps|
    ensures GoodOutcome(NodeStep(t.kids, t.seps, i, left, right, sep, page, linking), lo, hi, h, page)
    ensures OutRows(NodeStep(t.kids, t.seps, i, left, right, sep, page, linking))
         == RowsOf(t.kids[..i]) + (Rows(left) + Rows(right)) + RowsOf(t.kids[i + 1..])
  {
    hide WellFormed, Ordered, NodeStep, FilledNode, SepsFitAlone, Ascending, Grown, RowsOf, Inserted, GoodOutcome,
         Lower, Upper, NodeFits, SeparatorBytes;
    var kids, seps := t.kids, t.seps;
    OrderedAndFitting(kids, seps, lo, hi, h, page);
    NodeFacts(t, lo, hi, h, page);
    GoodHalves(left, right, sep, Lower(seps, lo, i), Upper(seps, hi, i), h - 1, page);
    GrownIsDivided(kids, seps, lo, hi, i, left, right, sep, linking);
    DividedOrdered(kids, seps, lo, hi, h, page, i, left, right, sep);
    NodeStepKeepsKids(kids, seps, i, left, right, sep, page, linking);
    RowsOfTwo(kids, i, left, right);
    DividedGood(kids, seps, lo, hi, h, page, i, sep, Divided(kids, i, left, right));
  }

  lemma GoodHalves(left: Tree, right: Tree, sep: u64, lo: int, hi: int, h: nat, page: nat)
    requires GoodOutcome(Split(left, right, sep), lo, hi, h, page)
    ensures lo < sep < hi && WellFormed(left, lo, sep, h, page) && WellFormed(right, sep, hi, h, page)
  {
    hide WellFormed;
  }

  lemma DividedGood(kids: seq<Tree>, seps: seq<u64>, lo: int, hi: int, h: nat, page: nat, i: nat, sep: u64,
                    kids': seq<Tree>)
    requires i <= |seps| && SepsFitAlone(seps, page) && page >= 100
    requires Ordered(kids', Inserted(seps, i, sep), lo, hi, h, page)
    ensures var seps' := Inserted(seps, i, sep);
            var mid := |seps'| / 2;
            GoodOutcome(if NodeFits(seps, sep, page) then Whole(Node(kids', seps'))
                        else Split(Node(kids'[..mid + 1], seps'[..mid]), Node(kids'[mid + 1..], seps'[mid + 1..]), seps'[mid]),
                        lo, hi, h, page)
  {
    hide WellFormed, NodeFits, SepsFitAlone, Ascending, Inserted;
    var seps' := Inserted(seps, i, sep);
    var mid := |seps'| / 2;
    if NodeFits(seps, sep, page) {
      FitsWithSeparator(seps, i, sep, page);
      OrderedAndFitting(kids', seps', lo, hi, h, page);
    } else {
      OrderedHalves(kids', seps', lo, hi, h, page, mid);
      InteriorHalvesFit(seps, i, sep, page);
      OrderedAndFitting(kids'[..mid + 1], seps'[..mid], lo, seps'[mid], h, page);
      OrderedAndFitting(kids'[mid + 1..], seps'[mid + 1..], seps'[mid], hi, h, page);
    }
  }

  lemma FitsWithSeparator(seps: seq<u64>, i: nat, sep: u64, page: nat)
    requires i <= |seps| && NodeFits(seps, sep, page)
    ensures SepsFitAlone(Inserted(seps, i, sep), page)
  {
    hide SeparatorBytes, SeparatorFootprints, Sum;
    SeparatorSumInserted(seps, i, sep);
    SeparatorSum(Inserted(seps, i, sep));
  }
}
