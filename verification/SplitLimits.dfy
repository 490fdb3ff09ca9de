// Where the insertion as coded departs from a map update, and what a reader then sees.
module SplitLimits {
  import opened Wrappers
  import opened Bytes
  import opened Keyed
  import opened TreeModel
  import opened TreeRows
  import opened TreeInvariant
  import opened TreeSizes
  import opened TreeInsertion
  import opened InsertTheorems
  import opened BTreeInsert
  import opened Runs

  // An upsert of the key at index j of a full leaf of n cells, both halves fitting, leaves exactly
  // the new row for that key if and only if j is not (n + 1) / 2 - 1.
  lemma UpsertExact(l: Tree, row: Row, lo: int, hi: int, page: nat)
    requires WellFormed(l, lo, hi, 0, page) && l.Leaf? && lo < row.key <= hi && page >= MIN_PAGE
    requires !LeafFits(l.rows, l.used, row, page) && Has(Keys(l.rows), row.key) && HalvesFit(l.rows, row, page)
    ensures l.rows != []
    ensures OutRows(SplitLeaf(l.rows, l.used, row, page)) == PutRow(l.rows, row)
       <==> Rank(Keys(l.rows), row.key) != (|l.rows| + 1) / 2 - 1
  {
    hide WellFormed, SplitLeaf, PutRow, Rank, LeafFits, HalvesFit, Keys;
    if Rank(Keys(l.rows), row.key) == (|l.rows| + 1) / 2 - 1 {
      StraddleKeepsBoth(l, row, lo, hi, page);
      LeafIsBetween(l, lo, hi, page);
      BothIsNotOne(l.rows, row, Rank(Keys(l.rows), row.key), lo, hi);
    } else {
      RoomyTakes(l, row, lo, hi, page);
      SplitLeafCorrect(l, row, lo, hi, page);
    }
  }

  // ---- looking up in the outcome of an insertion ----

  function RowIn(o: Outcome, key: u64): Option<Row>
    requires Shaped(o.tree) && (o.Split? ==> Shaped(o.right))
  {
    match o
    case Whole(t) => RowFor(t, key)
    case Split(left, right, sep) => if key <= sep then RowFor(left, key) else RowFor(right, key)
  }

  lemma RankDivided(seps: seq<u64>, lo: int, hi: int, i: nat, sep: u64, key: u64)
    requires Ascending(seps) && i <= |seps| && Lower(seps, lo, i) < sep
    requires i < |seps| ==> sep < seps[i]
    requires Lower(seps, lo, i) < key as int <= Upper(seps, hi, i)
    ensures Rank(Inserted(seps, i, sep), key) == if key <= sep then i else i + 1
  {
    hide Rank;
    var seps' := Inserted(seps, i, sep);
    forall j | 0 <= j < i ensures seps'[j] < key && seps'[j] < sep {
      assert j < i - 1 ==> seps[j] < seps[i - 1];
    }
    RankIs(seps', key, if key <= sep then i else i + 1);
  }

  lemma RankInHalves(seps: seq<u64>, mid: nat, key: u64)
    requires Ascending(seps) && mid < |seps|
    ensures key <= seps[mid] ==> Rank(seps[..mid], key) == Rank(seps, key) <= mid
    ensures key > seps[mid] ==> Rank(seps[mid + 1..], key) == Rank(seps, key) - mid - 1
  {
    hide Rank;
    if key <= seps[mid] {
      RankIs(seps, key, Rank(seps[..mid], key));
    } else {
      var rest := seps[mid + 1..];
      var r := mid + 1 + Rank(rest, key);
      forall j | 0 <= j < r ensures seps[j] < key {
        if j <= mid {
          assert j < mid ==> seps[j] < seps[mid];
        } else {
          assert seps[j] == rest[j - mid - 1];
        }
      }
      assert r < |seps| ==> seps[r] == rest[r - mid - 1];
      RankIs(seps, key, r);
    }
  }

  // Dividing a node over two pages does not change where a key leads.
  lemma {:induction false} DividedLookup(kids: seq<Tree>, seps: seq<u64>, mid: nat, key: u64)
    requires |kids| == |seps| + 1 && mid < |seps| && Ascending(seps)
    requires forall k :: 0 <= k < |kids| ==> Shaped(kids[k])
    ensures var o := Split(Node(kids[..mid + 1], seps[..mid]), Node(kids[mid + 1..], seps[mid + 1..]), seps[mid]);
            && Shaped(o.tree) && Shaped(o.right) && Shaped(Node(kids, seps))
            && RowIn(o, key) == RowFor(Node(kids, seps), key)
  {
    hide Rank;
    RankInHalves(seps, mid, key);
  }

  // The entry of a split kid: keys up to sep lead to the left half, the others of the range to
  // the right half if the kid was the right child, and to the left half again if it was not.
  lemma {:induction false} StepLookup(kids: seq<Tree>, seps: seq<u64>, lo: int, hi: int, i: nat, left: Tree,
                                      right: Tree, sep: u64, page: nat, key: u64)
    requires |kids| == |seps| + 1 && i <= |seps| && Ascending(seps) && SepsFitAlone(seps, page) && page >= 100
    requires forall k :: 0 <= k < |kids| ==> Shaped(kids[k])
    requires Shaped(left) && Shaped(right)
    requires Lower(seps, lo, i) < sep && (i < |seps| ==> sep < seps[i])
    requires Lower(seps, lo, i) < key as int <= Upper(seps, hi, i)
    ensures var o := NodeStep(kids, seps, i, left, right, sep, page, AsCoded);
            && Shaped(o.tree) && (o.Split? ==> Shaped(o.right))
            && RowIn(o, key) == RowFor(if key <= sep || i < |seps| then left else right, key)
  {
    hide Rank, NodeStep, SepsFitAlone, NodeFits, RowFor, RowIn, Inserted, Shaped, Ascending, Lower, Upper, Divided;
    CodedStep(kids, seps, lo, hi, i, left, right, sep, page);
    var second := if i < |seps| then left else right;
    var kids', seps' := Divided(kids, i, left, second), Inserted(seps, i, sep);
    DividedShaped(kids, i, left, second);
    CodedAscending(seps, lo, i, sep);
    RankDivided(seps, lo, hi, i, sep, key);
    RoutedTo(kids', seps', key, if key <= sep then i else i + 1);
    DividedLookup(kids', seps', |seps'| / 2, key);
    WholeLookup(Node(kids', seps'), key);
  }

  lemma CodedStep(kids: seq<Tree>, seps: seq<u64>, lo: int, hi: int, i: nat, left: Tree, right: Tree, sep: u64, page: nat)
    requires |kids| == |seps| + 1 && i <= |seps| && Ascending(seps) && SepsFitAlone(seps, page) && page >= 100
    requires Lower(seps, lo, i) < sep && (i < |seps| ==> sep < seps[i])
    ensures var kids' := Divided(kids, i, left, if i < |seps| then left else right);
            var seps' := Inserted(seps, i, sep);
            var mid := |seps'| / 2;
            && |kids'| == |seps'| + 1
            && NodeStep(kids, seps, i, left, right, sep, page, AsCoded)
               == if NodeFits(seps, sep, page) then Whole(Node(kids', seps'))
                  else Split(Node(kids'[..mid + 1], seps'[..mid]), Node(kids'[mid + 1..], seps'[mid + 1..]), seps'[mid])
  {
    hide NodeStep, SepsFitAlone, NodeFits, Ascending, Lower, Grown;
    NodeStepKeepsKids(kids, seps, i, left, right, sep, page, AsCoded);
    CodedEntries(kids, seps, lo, hi, i, left, right, sep);
  }

  lemma {:induction false} DividedShaped(kids: seq<Tree>, i: nat, a: Tree, b: Tree)
    requires i < |kids| && Shaped(a) && Shaped(b) && forall k :: 0 <= k < |kids| ==> Shaped(kids[k])
    ensures var kids' := Divided(kids, i, a, b);
            && |kids'| == |kids| + 1 && kids'[i] == a && kids'[i + 1] == b
            && forall k :: 0 <= k < |kids'| ==> Shaped(kids'[k])
  {
    hide Shaped;
    var kids' := Divided(kids, i, a, b);
    forall k | 0 <= k < |kids'| ensures Shaped(kids'[k]) {
      assert kids'[k] == a || kids'[k] == b || kids'[k] == kids[if k < i then k else k - 1];
    }
  }

  lemma {:induction false} WholeLookup(t: Tree, key: u64)
    requires Shaped(t)
    ensures RowIn(Whole(t), key) == RowFor(t, key)
  {
  }

  lemma {:induction false} RoutedTo(kids: seq<Tree>, seps: seq<u64>, key: u64, i: nat)
    requires |kids| == |seps| + 1 && Rank(seps, key) == i && forall k :: 0 <= k < |kids| ==> Shaped(kids[k])
    ensures Shaped(Node(kids, seps)) && RowFor(Node(kids, seps), key) == RowFor(kids[i], key)
  {
    hide Rank;
  }

  lemma CodedAscending(seps: seq<u64>, lo: int, i: nat, sep: u64)
    requires Ascending(seps) && i <= |seps| && Lower(seps, lo, i) < sep && (i < |seps| ==> sep < seps[i])
    ensures Ascending(Inserted(seps, i, sep))
  {
    var seps' := Inserted(seps, i, sep);
    forall a, b | 0 <= a < b < |seps'| ensures seps'[a] < seps'[b] {
      assert a < i - 1 ==> seps[a] < seps[i - 1];
      assert b > i + 1 ==> seps[i] < seps[b - 1];
    }
  }

  lemma CodedEntries(kids: seq<Tree>, seps: seq<u64>, lo: int, hi: int, i: nat, left: Tree, right: Tree, sep: u64)
    requires |kids| == |seps| + 1 && i <= |seps| && Ascending(seps)
    requires Lower(seps, lo, i) < sep && (i < |seps| ==> sep < seps[i])
    ensures Grown(kids, seps, i, left, right, sep, AsCoded)
         == (Divided(kids, i, left, if i < |seps| then left else right), Inserted(seps, i, sep))
  {
    hide Above;
    if i < |seps| {
      CodedMiddle(kids, seps, lo, hi, i, left, right, sep);
    } else {
      CodedRight(kids, seps, lo, left, right, sep);
    }
    forall j | 0 <= j < i ensures seps[j] <= sep {
      assert j < i - 1 ==> seps[j] < seps[i - 1];
    }
    AboveIs(seps, sep, i);
  }

  lemma RootLookup(t: Tree, row: Row, page: nat, key: u64)
    requires Shaped(t) && page >= MIN_PAGE
    ensures OutcomeShaped(InsertInto(t, row, page, AsCoded)) && Shaped(Insert(t, row, page, AsCoded))
    ensures RowFor(Insert(t, row, page, AsCoded), key) == RowIn(InsertInto(t, row, page, AsCoded), key)
  {
    hide InsertInto, FilledNode;
    InsertIntoShaped(t, row, page, AsCoded);
    InsertShaped(t, row, page, AsCoded);
    var o := InsertInto(t, row, page, AsCoded);
    if o.Split? {
      RootRows(o, page);
      RankIs([o.sep], key, if key <= o.sep then 0 else 1);
      RoutedTo([o.tree, o.right], [o.sep], key, if key <= o.sep then 0 else 1);
    }
  }

  // ---- an upsert that straddles the cut of its leaf ----

  lemma StaleInLeaf(l: Tree, row: Row, lo: int, hi: int, page: nat)
    requires WellFormed(l, lo, hi, 0, page) && l.Leaf? && lo < row.key <= hi && page >= MIN_PAGE && Shaped(l)
    requires LeafStraddles(l, row, page)
    ensures var o := InsertInto(l, row, page, AsCoded);
            && OutcomeShaped(o) && o.Split?
            && RowIn(o, row.key) == RowFor(l, row.key) && RowFor(l, row.key).Some?
  {
    hide WellFormed, SplitLeaf, LeafFits, Rank, RowFor, PutRow;
    InsertIntoShaped(l, row, page, AsCoded);
    StraddledLeft(l, row, lo, hi, page);
    var o := SplitLeaf(l.rows, l.used, row, page);
    KeptIsFound(l, o.tree, row.key);
  }

  // A leaf and another one that ends with its row of the key.
  lemma KeptIsFound(l: Tree, kept: Tree, key: u64)
    requires l.Leaf? && kept.Leaf? && Shaped(l) && Shaped(kept) && Has(Keys(l.rows), key)
    requires kept.rows == l.rows[..Rank(Keys(l.rows), key) + 1] && Ascending(Keys(kept.rows))
    ensures RowFor(kept, key) == RowFor(l, key) && RowFor(l, key).Some?
  {
    hide Rank, Ascending;
    LastIsFound(kept.rows, key);
  }

  // The left half ends with the old row, whatever becomes of the right one.
  lemma StraddledLeft(l: Tree, row: Row, lo: int, hi: int, page: nat)
    requires WellFormed(l, lo, hi, 0, page) && l.Leaf? && lo < row.key <= hi && page >= MIN_PAGE
    requires LeafStraddles(l, row, page)
    ensures l.rows != []
    ensures var o := SplitLeaf(l.rows, l.used, row, page);
            var kept := l.rows[..Rank(Keys(l.rows), row.key) + 1];
            && o.Split? && Rows(o.tree) == kept && o.tree.Leaf? && o.sep == row.key
            && kept[|kept| - 1] == l.rows[|kept| - 1] && kept[|kept| - 1].key == row.key && Ascending(Keys(kept))
  {
    hide WellFormed, LeafFits, Rank, Between, FitsAlone, Joint, Appends, Filled;
    var rows, j := l.rows, Rank(Keys(l.rows), row.key);
    LeafIsBetween(l, lo, hi, page);
    LeafFitsAlone(l, lo, hi, page);
    BetweenKeys(rows, lo, hi);
    JointOfPresent(rows, row, j);
    PresentDoesNotAppend(rows, row, j, lo, hi);
    StraddledHalves(rows, row, j, lo, hi, page);
    BetweenPart(rows, 0, j + 1, lo, hi);
    BetweenKeys(rows[..j + 1], lo, hi);
  }

  lemma LastIsFound(rows: seq<Row>, key: u64)
    requires rows != [] && Ascending(Keys(rows)) && rows[|rows| - 1].key == key
    ensures Has(Keys(rows), key) && Rank(Keys(rows), key) == |rows| - 1
  {
    assert forall j :: 0 <= j < |rows| - 1 ==> Keys(rows)[j] < Keys(rows)[|rows| - 1];
    RankIs(Keys(rows), key, |rows| - 1);
  }

  // The new payload is written, yet the key still leads to the old row.
  lemma {:induction false} StaleBelow(t: Tree, row: Row, lo: int, hi: int, h: nat, page: nat)
    requires WellFormed(t, lo, hi, h, page) && lo < row.key <= hi && page >= MIN_PAGE && Shaped(t)
    requires Straddles(t, row, page) && !SplitsMiddle(t, row, page)
    ensures OutcomeShaped(InsertInto(t, row, page, AsCoded))
    ensures RowIn(InsertInto(t, row, page, AsCoded), row.key) == RowFor(t, row.key)
    ensures RowFor(t, row.key).Some?
    decreases h
  {
    hide WellFormed, Rank, LeafStraddles, SplitLeaf, NodeStep, LeafFits, PutRow, Lower, Upper, Ascending,
         SeparatorBytes;
    InsertIntoShaped(t, row, page, AsCoded);
    match t
    case Leaf(_, _) =>
      WellFormedLeaf(t, lo, hi, h, page);
      StaleInLeaf(t, row, lo, hi, page);
    case Node(kids, seps) =>
      var i := Rank(seps, row.key);
      NodeFacts(t, lo, hi, h, page);
      NodeKid(t, lo, hi, h, page, i);
      RankRange(seps, lo, hi, row.key);
      SplitsMiddleHere(t, row, page);
      StaleBelow(kids[i], row, Lower(seps, lo, i), Upper(seps, hi, i), h - 1, page);
      CodedSeparator(kids[i], row, Lower(seps, lo, i), Upper(seps, hi, i), h - 1, page);
      match InsertInto(kids[i], row, page, AsCoded) {
        case Whole(kid) =>
        case Split(left, right, sep) =>
          SplitKid(t, row, page);
          StepLookup(kids, seps, lo, hi, i, left, right, sep, page, row.key);
      }
  }

  // After an upsert that straddles the cut of its leaf the key still leads to the old row.
  lemma OldRowStays(t: Tree, row: Row, lo: int, hi: int, h: nat, page: nat)
    requires WellFormed(t, lo, hi, h, page) && lo < row.key <= hi && page >= MIN_PAGE && Shaped(t)
    requires Straddles(t, row, page) && !SplitsMiddle(t, row, page)
    ensures Shaped(Insert(t, row, page, AsCoded))
    ensures RowFor(t, row.key).Some? && RowFor(Insert(t, row, page, AsCoded), row.key) == RowFor(t, row.key)
  {
    hide WellFormed, InsertInto, Insert, RowFor, Straddles, SplitsMiddle;
    StaleBelow(t, row, lo, hi, h, page);
    RootLookup(t, row, page, row.key);
  }

  // So with the old payload in its cell a search finds that payload.
  lemma StaleRead(t: Tree, row: Row, lo: int, hi: int, h: nat, page: nat)
    requires WellFormed(t, lo, hi, h, page) && lo < row.key <= hi && page >= MIN_PAGE && Shaped(t)
    requires Straddles(t, row, page) && !SplitsMiddle(t, row, page) && !Dangles(t, row, page)
    ensures Shaped(Insert(t, row, page, AsCoded))
    ensures Lookup(t, row.key).Some? && Lookup(Insert(t, row, page, AsCoded), row.key) == Lookup(t, row.key)
    ensures |Lookup(t, row.key).value| <= MAX_INLINE_PAYLOAD
  {
    hide WellFormed, Insert, RowFor, Straddles, SplitsMiddle, Dangles;
    OldRowStays(t, row, lo, hi, h, page);
    StraddleDangles(t, row, lo, hi, h, page);
  }

  // A straddling upsert dangles exactly when the old payload has overflow.
  lemma {:induction false} StraddleDangles(t: Tree, row: Row, lo: int, hi: int, h: nat, page: nat)
    requires WellFormed(t, lo, hi, h, page) && Shaped(t) && Straddles(t, row, page)
    ensures Lookup(t, row.key).Some? && !Takes(t, row, page)
    ensures Dangles(t, row, page) <==> |Lookup(t, row.key).value| > MAX_INLINE_PAYLOAD
    decreases h
  {
    hide Rank, LeafFits, WellFormed, LeafTakes, Lower, Upper;
    match t
    case Leaf(rows, _) =>
      WellFormedLeaf(t, lo, hi, h, page);
      StraddleDoesNotTake(t, row, lo, hi, page);
    case Node(kids, seps) =>
      var i := Rank(seps, row.key);
      NodeKid(t, lo, hi, h, page, i);
      StraddleDangles(kids[i], row, Lower(seps, lo, i), Upper(seps, hi, i), h - 1, page);
  }

  lemma StraddleDoesNotTake(l: Tree, row: Row, lo: int, hi: int, page: nat)
    requires WellFormed(l, lo, hi, 0, page) && l.Leaf? && LeafStraddles(l, row, page)
    ensures !LeafTakes(l, row, page)
  {
    hide Rank, LeafFits, WellFormed, PairFits, Between;
    LeafIsBetween(l, lo, hi, page);
    PresentDoesNotAppend(l.rows, row, Rank(Keys(l.rows), row.key), lo, hi);
  }

  // ---- a split of a kid that is not the right child ----

  // No key of the new right half is found any more.
  lemma {:induction false} MiddleSplitHides(t: Tree, row: Row, lo: int, hi: int, h: nat, page: nat, x: Row)
    requires WellFormed(t, lo, hi, h, page) && lo < row.key <= hi && page >= MIN_PAGE && Shaped(t) && t.Node?
    requires var i := Rank(t.seps, row.key);
             && i < |t.seps| && Clean(t.kids[i], row, page)
             && InsertInto(t.kids[i], row, page, AsCoded).Split? && x in Rows(InsertInto(t.kids[i], row, page, AsCoded).right)
    ensures Shaped(Insert(t, row, page, AsCoded)) && Lookup(Insert(t, row, page, AsCoded), x.key) == None
  {
    hide WellFormed, Rank, Takes, SplitsMiddle, NodeStep, Lower, Upper, RowFor, MapOf, RowsOf, PutRow,
         InsertInto, Insert, RowIn, Ascending;
    SplitKid(t, row, page);
    var kids, seps, i := t.kids, t.seps, Rank(t.seps, row.key);
    NodeFacts(t, lo, hi, h, page);
    NodeKid(t, lo, hi, h, page, i);
    RankRange(seps, lo, hi, row.key);
    var l, u := Lower(seps, lo, i), Upper(seps, hi, i);
    InsertIntoCorrect(kids[i], row, l, u, h - 1, page, AsCoded);
    InsertIntoShaped(kids[i], row, page, AsCoded);
    var o := InsertInto(kids[i], row, page, AsCoded);
    RowInRange(o.right, x, o.sep, u, h - 1, page);
    AbsentAbove(o.tree, x.key, l, o.sep, h - 1, page);
    UpperIs(seps, hi, i);
    StepLookup(kids, seps, lo, hi, i, o.tree, o.right, o.sep, page, x.key);
    RootLookup(t, row, page, x.key);
  }

  lemma SplitKid(t: Tree, row: Row, page: nat)
    requires Shaped(t) && t.Node? && page >= MIN_PAGE
    requires InsertInto(t.kids[Rank(t.seps, row.key)], row, page, AsCoded).Split?
    ensures var i := Rank(t.seps, row.key); var o := InsertInto(t.kids[i], row, page, AsCoded);
            InsertInto(t, row, page, AsCoded) == NodeStep(t.kids, t.seps, i, o.tree, o.right, o.sep, page, AsCoded)
  {
    hide NodeStep, Rank, LeafFits, SplitLeaf, PutRow;
  }

  lemma UpperIs(seps: seq<u64>, hi: int, i: nat)
    requires i < |seps|
    ensures Upper(seps, hi, i) == seps[i]
  {
  }

  lemma RowInRange(t: Tree, x: Row, lo: int, hi: int, h: nat, page: nat)
    requires WellFormed(t, lo, hi, h, page) && lo <= hi && x in Rows(t)
    ensures lo < x.key <= hi
  {
    hide WellFormed, Rows;
    RowsBetween(t, lo, hi, h, page);
  }

  lemma AbsentAbove(t: Tree, key: u64, lo: int, hi: int, h: nat, page: nat)
    requires WellFormed(t, lo, hi, h, page) && lo <= hi < key as int && Shaped(t)
    ensures Lookup(t, key) == None
  {
    hide WellFormed, Rows, MapOf, RowFor;
    Widened(t, lo, hi, key, h, page);
    LookupFindsScan(t, lo, key, h, page, key);
    NotAbove(t, key, lo, hi, h, page);
  }
}
