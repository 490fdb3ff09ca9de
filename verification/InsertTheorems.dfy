// The insertion theorems: the separator contract is right for every key the leaf can take, and
// the code meets it exactly when, besides, no kid but a right child splits.
module InsertTheorems {
  import opened Bytes
  import opened Keyed
  import opened TreeModel
  import opened TreeRows
  import opened TreeInvariant
  import opened TreeSizes
  import opened TreeInsertion
  import V = Varint

  // Inserting into a subtree keeps order, bounds, balance and capacities, and changes the rows
  // as a map update does: for the linking the separators ask for, with any key, and for the
  // linking of the code when every split on the way is that of a right child.
  lemma {:induction false} InsertIntoCorrect(t: Tree, row: Row, lo: int, hi: int, h: nat, page: nat, linking: Linking)
    requires WellFormed(t, lo, hi, h, page) && lo < row.key <= hi && page >= MIN_PAGE
    requires Shaped(t) && Takes(t, row, page)
    requires linking == AsMeant || !SplitsMiddle(t, row, page)
    ensures GoodOutcome(InsertInto(t, row, page, linking), lo, hi, h, page)
    ensures OutRows(InsertInto(t, row, page, linking)) == PutRow(Rows(t), row)
    decreases h
  {
    hide WellFormed, PutRow, RowsOf, Rank, LeafTakes, SplitLeaf, NodeStep, LeafFits, Lower, Upper, SplitsMiddle;
    match t
    case Leaf(rows, used) =>
      WellFormedLeaf(t, lo, hi, h, page);
      if LeafFits(rows, used, row, page) {
        PutIntoLeaf(t, row, lo, hi, page);
      } else {
        SplitLeafCorrect(t, row, lo, hi, page);
      }
    case Node(kids, seps) =>
      var i := Rank(seps, row.key);
      NodeFacts(t, lo, hi, h, page);
      NodeKid(t, lo, hi, h, page, i);
      RankRange(seps, lo, hi, row.key);
      var l, u := Lower(seps, lo, i), Upper(seps, hi, i);
      if !SplitsMiddle(t, row, page) {
        SplitsMiddleHere(t, row, page);
      }
      InsertIntoCorrect(kids[i], row, l, u, h - 1, page, linking);
      KidAlone(t, lo, hi, h, page, i, row.key);
      PutAmong(RowsOf(kids[..i]), Rows(kids[i]), RowsOf(kids[i + 1..]), row);
      match InsertInto(kids[i], row, page, linking) {
        case Whole(kid) =>
          KidReplaced(t, lo, hi, h, page, i, kid);
          RowsReplaced(kids, i, kid);
        case Split(left, right, sep) =>
          NodeStepCorrect(t, lo, hi, h, page, i, left, right, sep, linking);
      }
  }

  lemma WellFormedLeaf(t: Tree, lo: int, hi: int, h: nat, page: nat)
    requires WellFormed(t, lo, hi, h, page) && t.Leaf?
    ensures h == 0
  {
  }

  lemma SplitsMiddleHere(t: Tree, row: Row, page: nat)
    requires Shaped(t) && t.Node? && page >= MIN_PAGE && !SplitsMiddle(t, row, page)
    ensures var i := Rank(t.seps, row.key);
            !SplitsMiddle(t.kids[i], row, page) && (InsertInto(t.kids[i], row, page, AsCoded).Split? ==> i == |t.seps|)
  {
    hide Rank, InsertInto;
    PromotedIsSeparator(t.kids[Rank(t.seps, row.key)], row, page, AsCoded);
  }

  // ---- how the code can go wrong ----

  // Separators that come up lie in the key range even when rows are lost.
  lemma {:induction false} CodedSeparator(t: Tree, row: Row, lo: int, hi: int, h: nat, page: nat)
    requires WellFormed(t, lo, hi, h, page) && lo < row.key <= hi && page >= MIN_PAGE
    requires Shaped(t)
    ensures var o := InsertInto(t, row, page, AsCoded); o.Split? ==> lo < o.sep <= hi
    decreases h
  {
    hide Rank, LeafFits, PutRow, WellFormed, SplitLeaf, NodeStep, Between;
    match t
    case Leaf(rows, used) =>
      WellFormedLeaf(t, lo, hi, h, page);
      LeafIsBetween(t, lo, hi, page);
      if !LeafFits(rows, used, row, page) {
        FullLeafHasRows(t, row, lo, hi, page);
        LeafSeparator(rows, used, row, lo, hi, page);
      }
    case Node(kids, seps) =>
      var i := Rank(seps, row.key);
      NodeFacts(t, lo, hi, h, page);
      NodeKid(t, lo, hi, h, page, i);
      RankRange(seps, lo, hi, row.key);
      CodedSeparator(kids[i], row, Lower(seps, lo, i), Upper(seps, hi, i), h - 1, page);
      match InsertInto(kids[i], row, page, AsCoded) {
        case Whole(_) =>
        case Split(left, right, sep) => NodeSeparator(t, lo, hi, h, page, i, left, right, sep);
      }
  }

  lemma LeafSeparator(rows: seq<Row>, used: nat, row: Row, lo: int, hi: int, page: nat)
    requires Between(rows, lo, hi) && rows != [] && lo < row.key <= hi
    ensures lo < SplitLeaf(rows, used, row, page).sep <= hi
  {
    hide Filled, Above;
  }

  lemma NodeSeparator(t: Tree, lo: int, hi: int, h: nat, page: nat, i: nat, left: Tree, right: Tree, sep: u64)
    requires WellFormed(t, lo, hi, h, page) && t.Node? && h > 0 && i < |t.kids| == |t.seps| + 1 && lo <= hi
    requires Lower(t.seps, lo, i) < sep <= Upper(t.seps, hi, i)
    ensures var o := NodeStep(t.kids, t.seps, i, left, right, sep, page, AsCoded); o.Split? ==> lo < o.sep <= hi
  {
    hide FilledNode, NodeFits, Above, SeparatorBytes;
    NodeFacts(t, lo, hi, h, page);
    assert lo <= Lower(t.seps, lo, i) <= Upper(t.seps, hi, i) <= hi;
  }

  // A kid reached through a cell is listed twice, its new right half not at all.
  lemma CodedMiddle(kids: seq<Tree>, seps: seq<u64>, lo: int, hi: int, i: nat, left: Tree, right: Tree, sep: u64)
    requires |kids| == |seps| + 1 && i < |seps| && Ascending(seps)
    requires Lower(seps, lo, i) < sep <= Upper(seps, hi, i)
    ensures Grown(kids, seps, i, left, right, sep, AsCoded).0 == Divided(kids, i, left, left)
  {
    hide Above, Inserted, Divided;
    ListedTwice(kids, i, left);
    if sep < seps[i] {
      AboveSplit(seps, lo, hi, i, sep);
    } else {
      forall j | 0 <= j <= i ensures seps[j] <= sep {
        assert j < i ==> seps[j] < seps[i];
      }
      assert i + 1 < |seps| ==> seps[i] < seps[i + 1];
      AboveIs(seps, sep, i + 1);
    }
  }

  lemma ListedTwice(kids: seq<Tree>, i: nat, left: Tree)
    requires i < |kids|
    ensures Inserted(kids[i := left], i, left) == Divided(kids, i, left, left)
    ensures Inserted(kids[i := left], i + 1, left) == Divided(kids, i, left, left)
  {
  }

  lemma CodedRight<T>(kids: seq<T>, seps: seq<u64>, lo: int, left: T, right: T, sep: u64)
    requires |kids| == |seps| + 1 && Ascending(seps)
    requires Lower(seps, lo, |seps|) < sep
    ensures Grown(kids, seps, |seps|, left, right, sep, AsCoded).0 == Divided(kids, |seps|, left, right)
  {
    hide Above;
    var n := |seps|;
    forall j | 0 <= j < n ensures seps[j] <= sep {
      assert j < n - 1 ==> seps[j] < seps[n - 1];
    }
    AboveIs(seps, sep, n);
    assert Inserted(kids[n := right], n, left) == Divided(kids, n, left, right);
  }

  lemma TwiceNeverAscends(x: seq<Row>, rows: seq<Row>, lo: int, hi: int)
    requires Between(rows, lo, hi) && rows != []
    ensures x + x != rows
  {
    if x != [] && |rows| == |x + x| {
      assert (x + x)[0] == (x + x)[|x|];
      assert rows[0].key < rows[|x|].key;
    }
  }

  lemma CancelContext(a: seq<Row>, x: seq<Row>, y: seq<Row>, b: seq<Row>)
    requires x != y
    ensures a + x + b != a + y + b
  {
    assert (a + x + b)[|a|..|a| + |x|] == x;
    assert (a + y + b)[|a|..|a| + |y|] == y;
  }

  // A straddling upsert leaves both rows of the key.
  lemma StraddleKeepsBoth(l: Tree, row: Row, lo: int, hi: int, page: nat)
    requires WellFormed(l, lo, hi, 0, page) && l.Leaf? && lo < row.key <= hi && page >= MIN_PAGE
    requires LeafStraddles(l, row, page) && LeafRoomy(l, row, page)
    ensures l.rows != []
    ensures var o := SplitLeaf(l.rows, l.used, row, page);
            var j := Rank(Keys(l.rows), row.key);
            && o.tree.rows != [] && o.tree.rows[|o.tree.rows| - 1] == l.rows[j]
            && OutRows(o) == l.rows[..j] + [l.rows[j], row] + l.rows[j + 1..]
            && o.sep == row.key
  {
    hide Rank, CellBytes, CellSize, FitsAlone, Filled, Above, Between, Joint, WellFormed, LeafFits, Appends, PutRow,
         Keys;
    var rows, j := l.rows, Rank(Keys(l.rows), row.key);
    LeafIsBetween(l, lo, hi, page);
    BetweenKeys(rows, lo, hi);
    JointOfPresent(rows, row, j);
    PresentDoesNotAppend(rows, row, j, lo, hi);
    var all := Joint(rows, row);
    StraddledBetween(rows, row, j, lo, hi);
    FilledIsWellFormed(all[..j + 1], lo, hi, page);
    FilledIsWellFormed(all[j + 1..], lo, hi, page);
    SplitAt(all, j + 1);
  }

  lemma StraddledBetween(rows: seq<Row>, row: Row, j: nat, lo: int, hi: int)
    requires Between(rows, lo, hi) && j < |rows| && rows[j].key == row.key
    ensures var all := rows[..j] + [rows[j], row] + rows[j + 1..];
            && |all| == |rows| + 1 && all[j] == rows[j]
            && Between(all[..j + 1], lo, hi) && Between(all[j + 1..], lo, hi)
  {
    var all := rows[..j] + [rows[j], row] + rows[j + 1..];
    assert all[..j + 1] == rows[..j + 1];
    assert all[j + 1..] == [row] + rows[j + 1..];
  }

  lemma BothIsNotOne(rows: seq<Row>, row: Row, j: nat, lo: int, hi: int)
    requires Between(rows, lo, hi) && j < |rows| && rows[j].key == row.key
    ensures rows[..j] + [rows[j], row] + rows[j + 1..] != PutRow(rows, row)
  {
    BetweenKeys(rows, lo, hi);
    JointOfPresent(rows, row, j);
    assert |rows[..j] + [rows[j], row] + rows[j + 1..]| != |rows[..j] + [row] + rows[j + 1..]|;
  }

  // The leaf the key leads to does not come out as a map update.
  ghost predicate LeafGoesWrong(t: Tree, row: Row, page: nat)
    requires Shaped(t) && page >= MIN_PAGE
  {
    var l := LeafFor(t, row.key);
    OutRows(InsertInto(l, row, page, AsCoded)) != PutRow(l.rows, row)
  }

  // When a kid other than a right child splits, or the leaf goes wrong, the rows of the tree come out wrong.
  lemma {:induction false} CodedWrong(t: Tree, row: Row, lo: int, hi: int, h: nat, page: nat)
    requires WellFormed(t, lo, hi, h, page) && lo < row.key <= hi && page >= MIN_PAGE && Shaped(t)
    requires SplitsMiddle(t, row, page) || LeafGoesWrong(t, row, page)
    ensures OutRows(InsertInto(t, row, page, AsCoded)) != PutRow(Rows(t), row)
    decreases h
  {
    hide WellFormed, PutRow, RowsOf, Rank, LeafFits, SplitLeaf, NodeStep, Lower, Upper, PromotedKey;
    match t
    case Leaf(_, _) =>
    case Node(kids, seps) =>
      var i := Rank(seps, row.key);
      NodeFacts(t, lo, hi, h, page);
      NodeKid(t, lo, hi, h, page, i);
      RankRange(seps, lo, hi, row.key);
      var l, u := Lower(seps, lo, i), Upper(seps, hi, i);
      if SplitsMiddle(kids[i], row, page) || LeafGoesWrong(kids[i], row, page) {
        CodedWrong(kids[i], row, l, u, h - 1, page);
      }
      CodedSeparator(kids[i], row, l, u, h - 1, page);
      PromotedIsSeparator(kids[i], row, page, AsCoded);
      CodedWrongAtNode(t, row, lo, hi, h, page, i, InsertInto(kids[i], row, page, AsCoded));
  }

  lemma CodedWrongAtNode(t: Tree, row: Row, lo: int, hi: int, h: nat, page: nat, i: nat, o: Outcome)
    requires WellFormed(t, lo, hi, h, page) && t.Node? && h > 0 && lo <= hi && i < |t.kids| == |t.seps| + 1
    requires page >= MIN_PAGE
    requires Lower(t.seps, lo, i) < row.key <= Upper(t.seps, hi, i)
    requires o.Split? ==> Lower(t.seps, lo, i) < o.sep <= Upper(t.seps, hi, i)
    requires o.Whole? || i == |t.seps| ==> OutRows(o) != PutRow(Rows(t.kids[i]), row)
    ensures match o
            case Whole(kid) => RowsOf(t.kids[i := kid]) != PutRow(RowsOf(t.kids), row)
            case Split(left, right, sep) =>
              OutRows(NodeStep(t.kids, t.seps, i, left, right, sep, page, AsCoded)) != PutRow(RowsOf(t.kids), row)
  {
    hide WellFormed, PutRow, RowsOf, NodeStep, Lower, Upper;
    var kids := t.kids;
    var a, y, b := RowsOf(kids[..i]), Rows(kids[i]), RowsOf(kids[i + 1..]);
    KidAlone(t, lo, hi, h, page, i, row.key);
    PutAmong(a, y, b, row);
    match o {
      case Whole(kid) =>
        RowsReplaced(kids, i, kid);
        CancelContext(a, Rows(kid), PutRow(y, row), b);
      case Split(left, right, sep) =>
        CodedStepWrong(t, row, lo, hi, h, page, i, left, right, sep);
    }
  }

  // A leaf goes wrong exactly when it cannot take the row.
  lemma LeafExact(l: Tree, row: Row, lo: int, hi: int, page: nat)
    requires WellFormed(l, lo, hi, 0, page) && l.Leaf? && lo < row.key <= hi && page >= MIN_PAGE && Shaped(l)
    ensures LeafGoesWrong(l, row, page) <==> !LeafTakes(l, row, page)
  {
    hide WellFormed, SplitLeaf, PutRow, Rank, LeafFits, HalvesFit, Appends, SplitTakes, GoodOutcome;
    LeafIsBetween(l, lo, hi, page);
    if LeafFits(l.rows, l.used, row, page) {
    } else if LeafTakes(l, row, page) {
      SplitLeafCorrect(l, row, lo, hi, page);
    } else if Has(Keys(l.rows), row.key) {
      SplitPresent(l, row, lo, hi, page);
    } else {
      NewKeyTakes(l.rows, row, page);
      CrampedHalves(l, row, lo, hi, page);
    }
  }

  lemma NewKeyTakes(rows: seq<Row>, row: Row, page: nat)
    requires !Has(Keys(rows), row.key)
    ensures SplitTakes(rows, row, page) <==> HalvesFit(rows, row, page)
  {
    hide HalvesFit;
  }

  // Halving by count loses a row when a half does not fit.
  lemma CrampedHalves(l: Tree, row: Row, lo: int, hi: int, page: nat)
    requires WellFormed(l, lo, hi, 0, page) && l.Leaf? && lo < row.key <= hi && page >= MIN_PAGE
    requires !LeafFits(l.rows, l.used, row, page) && !Appends(l.rows, row) && !HalvesFit(l.rows, row, page)
    requires !Has(Keys(l.rows), row.key)
    ensures l.rows != [] && OutRows(SplitLeaf(l.rows, l.used, row, page)) != PutRow(l.rows, row)
  {
    hide WellFormed, PutRow, Rank, LeafFits, Appends, Joint, Filled, FitsAlone, Keys;
    FullLeafHasRows(l, row, lo, hi, page);
    LeafIsBetween(l, lo, hi, page);
    BetweenKeys(l.rows, lo, hi);
    JointIsPut(l.rows, row);
    PutBetween(l.rows, row, lo, hi);
    var all := Joint(l.rows, row);
    var mid := |all| / 2;
    BetweenHalves(all, mid, lo, hi);
    FilledExact(all[..mid], page);
    FilledExact(all[mid..], page);
    FilledLength(all[..mid], page);
    FilledLength(all[mid..], page);
    PartsAreSlices(all, mid, Filled(all[..mid], page).rows, Filled(all[mid..], page).rows);
  }

  lemma BetweenHalves(rows: seq<Row>, mid: nat, lo: int, hi: int)
    requires Between(rows, lo, hi) && mid <= |rows|
    ensures Ascending(Keys(rows[..mid])) && Ascending(Keys(rows[mid..]))
  {
  }

  lemma PartsAreSlices<T>(s: seq<T>, mid: nat, a: seq<T>, b: seq<T>)
    requires mid <= |s| && |a| <= mid && |b| <= |s| - mid
    ensures a + b == s ==> a == s[..mid] && b == s[mid..]
  {
  }

  lemma CodedStepWrong(t: Tree, row: Row, lo: int, hi: int, h: nat, page: nat, i: nat, left: Tree, right: Tree,
                       sep: u64)
    requires WellFormed(t, lo, hi, h, page) && t.Node? && h > 0 && lo <= hi && i < |t.kids| == |t.seps| + 1
    requires page >= MIN_PAGE
    requires Lower(t.seps, lo, i) < row.key <= Upper(t.seps, hi, i)
    requires Lower(t.seps, lo, i) < sep <= Upper(t.seps, hi, i)
    requires i == |t.seps| ==> Rows(left) + Rows(right) != PutRow(Rows(t.kids[i]), row)
    ensures OutRows(NodeStep(t.kids, t.seps, i, left, right, sep, page, AsCoded))
         != RowsOf(t.kids[..i]) + PutRow(Rows(t.kids[i]), row) + RowsOf(t.kids[i + 1..])
  {
    hide WellFormed, PutRow, RowsOf, NodeStep, Grown, Ascending, SeparatorBytes;
    var kids, seps := t.kids, t.seps;
    var a, y, b := RowsOf(kids[..i]), Rows(kids[i]), RowsOf(kids[i + 1..]);
    NodeFacts(t, lo, hi, h, page);
    NodeStepKeepsKids(kids, seps, i, left, right, sep, page, AsCoded);
    if i < |seps| {
      CodedMiddle(kids, seps, lo, hi, i, left, right, sep);
      RowsOfTwo(kids, i, left, left);
      NodeKid(t, lo, hi, h, page, i);
      RowsBetween(kids[i], Lower(seps, lo, i), Upper(seps, hi, i), h - 1, page);
      PutBetween(y, row, Lower(seps, lo, i), Upper(seps, hi, i));
      TwiceNeverAscends(Rows(left), PutRow(y, row), Lower(seps, lo, i), Upper(seps, hi, i));
      CancelContext(a, Rows(left) + Rows(left), PutRow(y, row), b);
    } else {
      CodedRight(kids, seps, lo, left, right, sep);
      RowsOfTwo(kids, i, left, right);
      CancelContext(a, Rows(left) + Rows(right), PutRow(y, row), b);
    }
  }

  // ---- the theorems at the root ----

  lemma RootRows(o: Outcome, page: nat)
    requires o.Split? && page >= 100
    ensures FilledNode([o.tree], [o.sep], o.right, page) == Node([o.tree, o.right], [o.sep])
    ensures Rows(FilledNode([o.tree], [o.sep], o.right, page)) == OutRows(o)
  {
    assert SepsFitAlone([o.sep], page) by {
      assert [o.sep][..0] == [];
      assert SeparatorBytes([o.sep][..0]) == 0;
    }
    FilledNodeKeepsAll([o.tree], [o.sep], o.right, page);
    assert [o.tree] + [o.right] == [o.tree, o.right];
    RowsOfConcat([o.tree], [o.right]);
    RowsOfOne(o.tree);
    RowsOfOne(o.right);
  }

  lemma RootWellFormed(o: Outcome, lo: int, hi: int, h: nat, page: nat)
    requires o.Split? && GoodOutcome(o, lo, hi, h, page) && page >= 100
    ensures WellFormed(Node([o.tree, o.right], [o.sep]), lo, hi, h + 1, page)
  {
    hide WellFormed;
    assert SepsFitAlone([o.sep], page) by {
      assert [o.sep][..0] == [];
      assert SeparatorBytes([o.sep][..0]) == 0;
    }
    OrderedAndFitting([o.tree, o.right], [o.sep], lo, hi, h + 1, page);
  }

  // The whole insertion: still well-formed, at most one level deeper, and one map update.
  lemma InsertCorrect(t: Tree, row: Row, lo: int, hi: int, h: nat, page: nat, linking: Linking)
    requires WellFormed(t, lo, hi, h, page) && lo < row.key <= hi && page >= MIN_PAGE
    requires Shaped(t) && Takes(t, row, page)
    requires linking == AsMeant || !SplitsMiddle(t, row, page)
    ensures var t' := Insert(t, row, page, linking);
            && WellFormed(t', lo, hi, if InsertInto(t, row, page, linking).Split? then h + 1 else h, page)
            && Rows(t') == PutRow(Rows(t), row)
            && MapOf(Rows(t')) == MapOf(Rows(t))[row.key := row.value]
  {
    hide WellFormed, PutRow, RowsOf, MapOf, InsertInto, Takes, SplitsMiddle, FilledNode;
    InsertIntoCorrect(t, row, lo, hi, h, page, linking);
    RowsBetween(t, lo, hi, h, page);
    MapOfPut(Rows(t), row, lo, hi);
    var o := InsertInto(t, row, page, linking);
    if o.Split? {
      RootRows(o, page);
      RootWellFormed(o, lo, hi, h, page);
    }
  }

  // What LeafExact says of the leaf a key leads to.
  lemma {:induction false} LeafExactIn(t: Tree, row: Row, lo: int, hi: int, h: nat, page: nat)
    requires WellFormed(t, lo, hi, h, page) && lo < row.key <= hi && page >= MIN_PAGE && Shaped(t)
    ensures LeafGoesWrong(t, row, page) <==> !Takes(t, row, page)
    decreases h
  {
    hide WellFormed, LeafTakes, LeafGoesWrong, Rank, Lower, Upper;
    match t
    case Leaf(_, _) =>
      WellFormedLeaf(t, lo, hi, h, page);
      LeafExact(t, row, lo, hi, page);
    case Node(kids, seps) =>
      var i := Rank(seps, row.key);
      NodeKid(t, lo, hi, h, page, i);
      RankRange(seps, lo, hi, row.key);
      LeafExactIn(kids[i], row, Lower(seps, lo, i), Upper(seps, hi, i), h - 1, page);
      SameLeaf(t, row, page);
  }

  lemma SameLeaf(t: Tree, row: Row, page: nat)
    requires Shaped(t) && t.Node? && page >= MIN_PAGE
    ensures LeafGoesWrong(t, row, page) <==> LeafGoesWrong(t.kids[Rank(t.seps, row.key)], row, page)
  {
    hide Rank, InsertInto, PutRow;
  }

  // Exactly when the code as written is a map update: no kid but a right child splits on the way,
  // and the leaf takes the row.
  lemma InsertExact(t: Tree, row: Row, lo: int, hi: int, h: nat, page: nat)
    requires WellFormed(t, lo, hi, h, page) && lo < row.key <= hi && page >= MIN_PAGE && Shaped(t)
    ensures Rows(Insert(t, row, page, AsCoded)) == PutRow(Rows(t), row)
       <==> !SplitsMiddle(t, row, page) && Takes(t, row, page)
  {
    hide WellFormed, PutRow, RowsOf, InsertInto, Takes, SplitsMiddle, FilledNode, LeafGoesWrong;
    LeafExactIn(t, row, lo, hi, h, page);
    if SplitsMiddle(t, row, page) || LeafGoesWrong(t, row, page) {
      CodedWrong(t, row, lo, hi, h, page);
    } else {
      InsertIntoCorrect(t, row, lo, hi, h, page, AsCoded);
    }
    var o := InsertInto(t, row, page, AsCoded);
    if o.Split? {
      RootRows(o, page);
    }
  }

  // ---- the step of the code and the step the separators ask for ----

  // The halves of a full leaf have no row in common, unless an upsert straddles the cut.
  lemma LeafHalvesDiffer(l: Tree, row: Row, lo: int, hi: int, page: nat)
    requires WellFormed(l, lo, hi, 0, page) && l.Leaf? && lo < row.key <= hi && page >= MIN_PAGE
    requires !LeafFits(l.rows, l.used, row, page) && !LeafStraddles(l, row, page)
    ensures l.rows != []
    ensures var o := SplitLeaf(l.rows, l.used, row, page); o.Split? && o.tree != o.right
  {
    hide WellFormed, LeafFits, Filled, Joint, Rank, Keys;
    FullLeafHasRows(l, row, lo, hi, page);
    LeafIsBetween(l, lo, hi, page);
    if Appends(l.rows, row) {
      FilledLength([row], page);
    } else {
      var all := Joint(l.rows, row);
      JointLength(l.rows, row);
      FilledSome(all[..|all| / 2], page);
      CutApart(l.rows, row, lo, hi, page);
      var x := Filled(all[..|all| / 2], page).rows[0];
      FilledMembers(all[..|all| / 2], page, x);
      if x in Filled(all[|all| / 2..], page).rows {
        FilledMembers(all[|all| / 2..], page, x);
        assert false;
      }
    }
  }

  // Keys in front of the cut are below those behind it.
  lemma CutApart(rows: seq<Row>, row: Row, lo: int, hi: int, page: nat)
    requires Between(rows, lo, hi) && lo < row.key <= hi
    requires Has(Keys(rows), row.key) ==> Rank(Keys(rows), row.key) != (|rows| + 1) / 2 - 1
    ensures var all := Joint(rows, row);
            forall x, y :: x in all[..|all| / 2] && y in all[|all| / 2..] ==> x.key < y.key
  {
    hide Rank, Above, Keys, Joint, PutRow;
    BetweenKeys(rows, lo, hi);
    var all := Joint(rows, row);
    JointLength(rows, row);
    var mid := |all| / 2;
    if Has(Keys(rows), row.key) {
      var j := Rank(Keys(rows), row.key);
      PresentKey(rows, row);
      JointOfPresent(rows, row, j);
      DoubledApart(rows, row, j, mid, lo, hi);
    } else {
      JointIsPut(rows, row);
      PutBetween(rows, row, lo, hi);
    }
    forall x, y | x in all[..mid] && y in all[mid..] ensures x.key < y.key {
      var a :| 0 <= a < mid && all[a] == x;
      var b :| 0 <= b < |all| - mid && all[mid..][b] == y;
      assert all[mid + b] == y;
    }
  }

  lemma PresentKey(rows: seq<Row>, row: Row)
    requires Has(Keys(rows), row.key)
    ensures var j := Rank(Keys(rows), row.key); j < |rows| && rows[j].key == row.key
  {
    hide Rank;
  }

  lemma DoubledApart(rows: seq<Row>, row: Row, j: nat, mid: nat, lo: int, hi: int)
    requires Between(rows, lo, hi) && j < |rows| && rows[j].key == row.key && mid != j + 1 && mid <= |rows| + 1
    ensures var all := rows[..j] + [rows[j], row] + rows[j + 1..];
            forall a, b :: 0 <= a < mid <= b < |all| ==> all[a].key < all[b].key
  {
    var all := rows[..j] + [rows[j], row] + rows[j + 1..];
    forall a, b | 0 <= a < mid <= b < |all| ensures all[a].key < all[b].key {
      var a', b' := if a <= j then a else a - 1, if b <= j then b else b - 1;
      assert all[a].key == rows[a'].key && all[b].key == rows[b'].key && a' < b';
    }
  }

  // The halves of a node have different separators, whatever was linked into them.
  lemma NodeHalvesDiffer(seps: seq<u64>, sep: u64, page: nat)
    requires Ascending(seps) && page >= MIN_PAGE && !NodeFits(seps, sep, page)
    ensures var seps' := Inserted(seps, Above(seps, sep), sep); seps'[..|seps'| / 2] != seps'[|seps'| / 2 + 1..]
  {
    hide Above, SeparatorBytes;
    var j := Above(seps, sep);
    var seps' := Inserted(seps, j, sep);
    assert seps != [] by {
      V.ShortLength(sep);
      if seps == [] {
        NoSeparatorBytes();
        assert false;
      }
    }
    var mid := |seps'| / 2;
    if |seps'[..mid]| == |seps'[mid + 1..]| {
      assert seps'[..mid][0] == seps'[0] && seps'[mid + 1..][0] == seps'[mid + 1];
      assert seps[0] < seps[mid];
    }
  }

  lemma NoSeparatorBytes()
    ensures SeparatorBytes([]) == 0
  {
  }

  // However a subtree splits, what the code puts on the left is not what is meant for the right.
  lemma {:induction false} HalvesDiffer(t: Tree, row: Row, lo: int, hi: int, h: nat, page: nat)
    requires WellFormed(t, lo, hi, h, page) && lo < row.key <= hi && page >= MIN_PAGE && Shaped(t)
    requires !Straddles(t, row, page) && PromotedKey(t, row, page).Some?
    ensures var o, m := InsertInto(t, row, page, AsCoded), InsertInto(t, row, page, AsMeant);
            o.Split? && m.Split? && o.sep == m.sep && o.tree != m.right
  {
    hide WellFormed, Rank, LeafFits, LeafStraddles, SplitLeaf, NodeStep, NodeFits, Inserted, Above, PutRow, PromotedKey,
         Ascending, SepsFitAlone;
    PromotedIsSeparator(t, row, page, AsCoded);
    PromotedIsSeparator(t, row, page, AsMeant);
    match t
    case Leaf(_, _) =>
      WellFormedLeaf(t, lo, hi, h, page);
      FullLeaf(t, row, page);
      LeafHalvesDiffer(t, row, lo, hi, page);
    case Node(kids, seps) =>
      var i := Rank(seps, row.key);
      NodeFacts(t, lo, hi, h, page);
      OrderedAndFitting(kids, seps, lo, hi, h, page);
      var o, m := InsertInto(kids[i], row, page, AsCoded), InsertInto(kids[i], row, page, AsMeant);
      PromotedIsSeparator(kids[i], row, page, AsCoded);
      PromotedIsSeparator(kids[i], row, page, AsMeant);
      NodeOutcomes(t, row, page);
      NodeStepSeparators(kids, seps, i, o.tree, o.right, o.sep, page, AsCoded);
      NodeStepSeparators(kids, seps, i, m.tree, m.right, m.sep, page, AsMeant);
      NodeHalvesDiffer(seps, o.sep, page);
  }

  // The separators of a divided node do not depend on the kids.
  lemma NodeStepSeparators(kids: seq<Tree>, seps: seq<u64>, i: nat, left: Tree, right: Tree, sep: u64, page: nat,
                           linking: Linking)
    requires |kids| == |seps| + 1 && i <= |seps| && Ascending(seps) && SepsFitAlone(seps, page) && page >= 100
    requires !NodeFits(seps, sep, page)
    ensures var seps' := Inserted(seps, Above(seps, sep), sep);
            var o := NodeStep(kids, seps, i, left, right, sep, page, linking);
            && o.Split? && o.tree.Node? && o.right.Node? && o.sep == seps'[|seps'| / 2]
            && o.tree.seps == seps'[..|seps'| / 2] && o.right.seps == seps'[|seps'| / 2 + 1..]
  {
    hide NodeStep, Ascending, SepsFitAlone, NodeFits, Above, OutRows;
    NodeStepKeepsKids(kids, seps, i, left, right, sep, page, linking);
  }

  lemma FullLeaf(l: Tree, row: Row, page: nat)
    requires l.Leaf? && Shaped(l) && page >= MIN_PAGE && PromotedKey(l, row, page).Some?
    ensures !LeafFits(l.rows, l.used, row, page)
  {
    hide LeafFits;
  }

  // When a node splits, so did its kid.
  lemma NodeOutcomes(t: Tree, row: Row, page: nat)
    requires Shaped(t) && t.Node? && page >= MIN_PAGE && PromotedKey(t, row, page).Some?
    ensures PromotedKey(t.kids[Rank(t.seps, row.key)], row, page).Some?
    ensures !NodeFits(t.seps, PromotedKey(t.kids[Rank(t.seps, row.key)], row, page).value, page)
  {
    hide Rank, NodeFits, Above;
  }

  // A kid that is not the right child has split: the two linkings put different kids at its place.
  lemma LinkedDiffer(kids: seq<Tree>, seps: seq<u64>, lo: int, hi: int, i: nat, left: Tree, right: Tree, left': Tree,
                     right': Tree, sep: u64)
    requires |kids| == |seps| + 1 && i <= |seps| && Ascending(seps)
    requires Lower(seps, lo, i) < sep <= Upper(seps, hi, i)
    requires if i < |seps| then left != right' else left != left' || right != right'
    ensures Grown(kids, seps, i, left, right, sep, AsCoded).0 != Grown(kids, seps, i, left', right', sep, AsMeant).0
  {
    hide Above;
    if i == |seps| {
      CodedRight(kids, seps, lo, left, right, sep);
      CodedRight(kids, seps, lo, left', right', sep);
      assert Divided(kids, i, left, right)[i] == left && Divided(kids, i, left, right)[i + 1] == right;
      assert Divided(kids, i, left', right')[i] == left' && Divided(kids, i, left', right')[i + 1] == right';
    } else {
      CodedMiddle(kids, seps, lo, hi, i, left, right, sep);
      MeantMiddle(kids, seps, lo, i, left', right', sep);
      assert Divided(kids, i, left, left)[i] == left && Divided(kids, i, left, left)[i + 1] == left;
    }
  }

  lemma MeantMiddle(kids: seq<Tree>, seps: seq<u64>, lo: int, i: nat, left: Tree, right: Tree, sep: u64)
    requires |kids| == |seps| + 1 && i < |seps| && Ascending(seps) && Lower(seps, lo, i) < sep <= seps[i]
    ensures var kids' := Grown(kids, seps, i, left, right, sep, AsMeant).0; kids'[i] == right || kids'[i + 1] == right
  {
    hide Above;
    forall j | 0 <= j < i ensures seps[j] <= sep {
      assert j < i - 1 ==> seps[j] < seps[i - 1];
    }
    assert i + 1 < |seps| ==> seps[i] < seps[i + 1];
    AboveIs(seps, sep, if sep < seps[i] then i else i + 1);
  }

  lemma NoMiddle(t: Tree, row: Row, page: nat)
    requires Shaped(t) && t.Leaf? && page >= MIN_PAGE
    ensures !SplitsMiddle(t, row, page)
  {
  }

  lemma MiddleHere(t: Tree, row: Row, page: nat)
    requires Shaped(t) && t.Node? && page >= MIN_PAGE && SplitsMiddle(t, row, page)
    ensures var i := Rank(t.seps, row.key);
            SplitsMiddle(t.kids[i], row, page) || (i < |t.seps| && PromotedKey(t.kids[i], row, page).Some?)
    ensures Straddles(t, row, page) <==> Straddles(t.kids[Rank(t.seps, row.key)], row, page)
  {
    hide Rank, PromotedKey, LeafStraddles;
  }

  // A kid other than a right child splits: the code takes another step than is meant.
  lemma {:induction false} MiddleDiffers(t: Tree, row: Row, lo: int, hi: int, h: nat, page: nat)
    requires WellFormed(t, lo, hi, h, page) && lo < row.key <= hi && page >= MIN_PAGE && Shaped(t)
    requires !Straddles(t, row, page) && SplitsMiddle(t, row, page)
    ensures InsertInto(t, row, page, AsCoded) != InsertInto(t, row, page, AsMeant)
    decreases h
  {
    hide SplitsMiddle, Straddles, WellFormed, Rank, NodeStep, PromotedKey, Ascending, SepsFitAlone, Lower, Upper, InsertInto;
    match t
    case Leaf(_, _) => NoMiddle(t, row, page);
    case Node(kids, seps) =>
      var i := Rank(seps, row.key);
      MiddleHere(t, row, page);
      NodeFacts(t, lo, hi, h, page);
      OrderedAndFitting(kids, seps, lo, hi, h, page);
      NodeKid(t, lo, hi, h, page, i);
      RankRange(seps, lo, hi, row.key);
      var l, u := Lower(seps, lo, i), Upper(seps, hi, i);
      var o, m := InsertInto(kids[i], row, page, AsCoded), InsertInto(kids[i], row, page, AsMeant);
      PromotedIsSeparator(kids[i], row, page, AsCoded);
      PromotedIsSeparator(kids[i], row, page, AsMeant);
      if SplitsMiddle(kids[i], row, page) {
        MiddleDiffers(kids[i], row, l, u, h - 1, page);
      }
      if o.Split? {
        HalvesDiffer(kids[i], row, l, u, h - 1, page);
        CodedSeparator(kids[i], row, l, u, h - 1, page);
      }
      MiddleAtNode(t, row, lo, hi, page, i, o, m);
  }

  // Outcomes of the kid that differ, or a middle kid whose halves differ, make the node's differ.
  lemma MiddleAtNode(t: Tree, row: Row, lo: int, hi: int, page: nat, i: nat, o: Outcome, m: Outcome)
    requires Shaped(t) && t.Node? && page >= MIN_PAGE && i == Rank(t.seps, row.key)
    requires Ascending(t.seps) && SepsFitAlone(t.seps, page)
    requires o == InsertInto(t.kids[i], row, page, AsCoded) && m == InsertInto(t.kids[i], row, page, AsMeant)
    requires if o.Split? then m.Split? && o.sep == m.sep && Lower(t.seps, lo, i) < o.sep <= Upper(t.seps, hi, i) else m.Whole?
    requires if o.Split? && i < |t.seps| then o.tree != m.right else o != m
    ensures InsertInto(t, row, page, AsCoded) != InsertInto(t, row, page, AsMeant)
  {
    hide Rank, LeafFits, SplitLeaf, NodeStep, Ascending, SepsFitAlone, Lower, Upper, PutRow, Grown;
    var kids := t.kids;
    if o.Split? {
      LinkedDiffer(kids, t.seps, lo, hi, i, o.tree, o.right, m.tree, m.right, o.sep);
      StepsDiffer(kids, t.seps, i, o.tree, o.right, m.tree, m.right, o.sep, page);
    } else {
      assert kids[i := o.tree][i] == o.tree && kids[i := m.tree][i] == m.tree;
    }
  }

  // Different kids stay different when the node's page is divided.
  lemma StepsDiffer(kids: seq<Tree>, seps: seq<u64>, i: nat, left: Tree, right: Tree, left': Tree, right': Tree,
                    sep: u64, page: nat)
    requires |kids| == |seps| + 1 && i <= |seps| && Ascending(seps) && SepsFitAlone(seps, page) && page >= 100
    requires Grown(kids, seps, i, left, right, sep, AsCoded).0 != Grown(kids, seps, i, left', right', sep, AsMeant).0
    ensures NodeStep(kids, seps, i, left, right, sep, page, AsCoded)
         != NodeStep(kids, seps, i, left', right', sep, page, AsMeant)
  {
    hide NodeStep, Ascending, SepsFitAlone, NodeFits, Above, OutRows;
    var a, b := Grown(kids, seps, i, left, right, sep, AsCoded), Grown(kids, seps, i, left', right', sep, AsMeant);
    NodeStepKeepsKids(kids, seps, i, left, right, sep, page, AsCoded);
    NodeStepKeepsKids(kids, seps, i, left', right', sep, page, AsMeant);
    var mid := |a.1| / 2;
    SplitAt(a.0, mid + 1);
    SplitAt(b.0, mid + 1);
  }

  // The code takes the step the separators ask for exactly when no kid but a right child splits,
  // whatever else the insertion loses, upserts that straddle the cut of their leaf left aside.
  lemma CodedIsMeant(t: Tree, row: Row, lo: int, hi: int, h: nat, page: nat)
    requires WellFormed(t, lo, hi, h, page) && lo < row.key <= hi && page >= MIN_PAGE
    requires Shaped(t) && !Straddles(t, row, page)
    ensures InsertInto(t, row, page, AsCoded) == InsertInto(t, row, page, AsMeant) <==> !SplitsMiddle(t, row, page)
  {
    hide WellFormed, InsertInto, Straddles, SplitsMiddle;
    if SplitsMiddle(t, row, page) {
      MiddleDiffers(t, row, lo, hi, h, page);
    } else {
      SameStep(t, row, page);
    }
  }

  lemma {:induction false} SameStep(t: Tree, row: Row, page: nat)
    requires Shaped(t) && page >= MIN_PAGE && !SplitsMiddle(t, row, page)
    ensures InsertInto(t, row, page, AsCoded) == InsertInto(t, row, page, AsMeant)
  {
    hide Rank, SplitLeaf, FilledNode, NodeFits, LeafFits, PutRow, Above, PromotedKey;
    match t
    case Leaf(_, _) =>
    case Node(kids, seps) =>
      PromotedIsSeparator(kids[Rank(seps, row.key)], row, page, AsCoded);
      SameStep(kids[Rank(seps, row.key)], row, page);
  }
}
