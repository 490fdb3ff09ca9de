// Whole runs of operations, on trees as values: which runs keep the tree well-formed and
// equal to a finite map.
module Runs {
  import opened Wrappers
  import opened Bytes
  import opened Cells
  import opened Keyed
  import opened TreeModel
  import opened TreeRows
  import opened TreeInvariant
  import opened TreeSizes
  import opened TreeInsertion
  import opened InsertTheorems
  import opened NodeInsertion
  import opened BTreeInsert
  import opened BTreeRead

  // ---- keys above all keys of the tree ----

  lemma {:induction false} Widened(t: Tree, lo: int, hi: int, hi': int, h: nat, page: nat)
    requires WellFormed(t, lo, hi, h, page) && hi <= hi'
    ensures WellFormed(t, lo, hi', h, page)
    decreases h
  {
    hide CellBytes, SeparatorBytes, Ascending;
    match t
    case Leaf(_, _) =>
    case Node(kids, seps) =>
      forall i | 0 <= i < |kids| ensures WellFormed(kids[i], Lower(seps, lo, i), Upper(seps, hi', i), h - 1, page) {
        Widened(kids[i], Lower(seps, lo, i), Upper(seps, hi, i), Upper(seps, hi', i), h - 1, page);
      }
  }

  // Such a key only ever splits right children, and never a leaf that holds it.
  lemma {:induction false} HighKeyIsClean(t: Tree, row: Row, lo: int, hi: int, h: nat, page: nat)
    requires WellFormed(t, lo, hi, h, page) && hi < row.key && Shaped(t) && page >= MIN_PAGE
    ensures Clean(t, row, page)
    decreases h
  {
    hide WellFormed, InsertInto, LeafTakes, Lower, Upper;
    match t
    case Leaf(_, _) => HighKeyInLeaf(t, row, lo, hi, h, page);
    case Node(kids, seps) =>
      var n := |seps|;
      NodeFacts(t, lo, hi, h, page);
      NodeKid(t, lo, hi, h, page, n);
      AboveSeparators(t, row.key, lo, hi, h, page);
      HighKeyIsClean(kids[n], row, Lower(seps, lo, n), Upper(seps, hi, n), h - 1, page);
  }

  lemma AboveSeparators(t: Tree, key: u64, lo: int, hi: int, h: nat, page: nat)
    requires WellFormed(t, lo, hi, h, page) && t.Node? && hi < key as int
    ensures Rank(t.seps, key) == |t.seps| && Upper(t.seps, hi, |t.seps|) == hi
  {
    hide SeparatorBytes;
    RankIs(t.seps, key, |t.seps|);
  }

  lemma HighKeyInLeaf(l: Tree, row: Row, lo: int, hi: int, h: nat, page: nat)
    requires WellFormed(l, lo, hi, h, page) && l.Leaf? && hi < row.key && Shaped(l) && page >= MIN_PAGE
    ensures Clean(l, row, page)
  {
    hide CellBytes, CellSize, LeafFits, Keys, Rank, HalvesFit, Appends, SplitTakes;
    WellFormedLeaf(l, lo, hi, h, page);
    BetweenKeys(l.rows, lo, hi);
    HasIff(Keys(l.rows), row.key);
    assert forall i :: 0 <= i < |l.rows| ==> Keys(l.rows)[i] != row.key;
    FewRowsFit(l, row, lo, hi, page);
    NewKeyTakes(l.rows, row, page);
  }

  // A full leaf that is not split by appending has a single row, so both halves fit.
  lemma FewRowsFit(l: Tree, row: Row, lo: int, hi: int, page: nat)
    requires WellFormed(l, lo, hi, 0, page) && l.Leaf? && hi < row.key && page >= MIN_PAGE
    ensures LeafRoomy(l, row, page)
  {
    hide CellBytes, CellSize, Joint;
    if |l.rows| == 0 {
      CellSizeBound(row);
    } else if |l.rows| == 1 {
      JointLength(l.rows, row);
      var all := Joint(l.rows, row);
      OneFits(all[0], page);
      OneFits(all[1], page);
      assert all[..1] == [all[0]] && all[1..] == [all[1]];
    }
  }

  lemma OneFits(row: Row, page: nat)
    requires page >= MIN_PAGE
    ensures FitsAlone([row], page)
  {
    hide CellSize, CellBytes;
    CellBytesOne(row);
    CellSizeBound(row);
  }

  // Inserting a key above all others: well-formed up to that key, one row more at the end.
  lemma HighKeyInsert(t: Tree, row: Row, lo: int, hi: int, h: nat, page: nat)
    requires WellFormed(t, lo, hi, h, page) && lo <= hi < row.key && Shaped(t) && page >= MIN_PAGE
    ensures Clean(t, row, page)
    ensures var t' := Insert(t, row, page, AsCoded);
            && WellFormed(t', lo, row.key, if InsertInto(t, row, page, AsCoded).Split? then h + 1 else h, page)
            && Rows(t') == Rows(t) + [row]
  {
    hide WellFormed, InsertInto, Insert, Takes, SplitsMiddle, PutRow, RowsOf, MapOf;
    HighKeyIsClean(t, row, lo, hi, h, page);
    Widened(t, lo, hi, row.key, h, page);
    InsertCorrect(t, row, lo, row.key, h, page, AsCoded);
    RowsBetween(t, lo, hi, h, page);
    PutAtEnd(Rows(t), row);
  }

  // ---- deleting an absent key ----

  lemma {:induction false} DeleteAbsent(t: Tree, key: u64)
    requires Shaped(t) && Lookup(t, key) == None
    ensures Delete(t, key) == t
  {
    hide Rank, Has;
    match t
    case Leaf(_, _) =>
    case Node(kids, seps) =>
      var i := Rank(seps, key);
      DeleteAbsent(kids[i], key);
      assert kids[i := kids[i]] == kids;
  }

  // Deleting any key keeps the range of the tree.
  lemma DeleteInRange(t: Tree, key: u64, lo: int, hi: int, h: nat, page: nat)
    requires WellFormed(t, lo, hi, h, page) && lo < key as int && Shaped(t) && lo <= hi
    ensures WellFormed(Delete(t, key), lo, hi, h, page) && Shaped(Delete(t, key))
    ensures Rows(Delete(t, key)) == WithoutKey(Rows(t), key)
  {
    hide WellFormed, Delete, Lookup, RowsOf, WithoutKey;
    if key as int <= hi {
      DeleteCorrect(t, lo, hi, h, page, key);
    } else {
      Widened(t, lo, hi, key, h, page);
      DeleteCorrect(t, lo, key, h, page, key);
      LookupFindsScan(t, lo, key, h, page, key);
      NotAbove(t, key, lo, hi, h, page);
      DeleteAbsent(t, key);
    }
    WellFormedIsShaped(Delete(t, key), lo, hi, h, page);
  }

  lemma NotAbove(t: Tree, key: u64, lo: int, hi: int, h: nat, page: nat)
    requires WellFormed(t, lo, hi, h, page) && lo <= hi < key as int
    ensures key !in MapOf(Rows(t))
  {
    hide WellFormed, Rows, MapOf;
    RowsBetween(t, lo, hi, h, page);
    BetweenKeys(Rows(t), lo, hi);
    MapOfHolds(Rows(t));
  }

  // ---- insertion keeps the shape, even where it loses rows ----

  lemma {:induction false} FilledShaped(rows: seq<Row>, page: nat)
    ensures Shaped(Filled(rows, page))
  {
    hide CellSize, LeafFits, PutRow, Keys, Rank, Has;
    if rows != [] {
      FilledShaped(rows[..|rows| - 1], page);
      PutHasRows(Filled(rows[..|rows| - 1], page).rows, rows[|rows| - 1]);
    }
  }

  lemma {:induction false} FilledNodeShaped(kids: seq<Tree>, seps: seq<u64>, right: Tree, page: nat)
    requires |kids| == |seps| && Shaped(right) && forall k :: k in kids ==> Shaped(k)
    ensures Shaped(FilledNode(kids, seps, right, page))
  {
    hide FilledEntries;
    var (kids', seps') := FilledEntries(kids, seps, right, page);
    forall i | 0 <= i < |kids'| ensures Shaped(kids'[i]) {
      FilledEntriesMembers(kids, seps, right, page, kids'[i]);
    }
  }

  lemma {:induction false} GrownShaped(kids: seq<Tree>, seps: seq<u64>, i: nat, left: Tree, right: Tree, sep: u64,
                                       linking: Linking)
    requires |kids| == |seps| + 1 && i <= |seps| && Shaped(left) && Shaped(right)
    requires forall k :: 0 <= k < |kids| ==> Shaped(kids[k])
    ensures forall k :: k in Grown(kids, seps, i, left, right, sep, linking).0 ==> Shaped(k)
  {
    hide Above, Shaped;
    var relinked := if i == |seps| || linking == AsMeant then kids[i := right] else kids[i := left];
    assert forall k :: k in relinked ==> Shaped(k);
  }

  ghost predicate OutcomeShaped(o: Outcome) {
    Shaped(o.tree) && (o.Split? ==> Shaped(o.right))
  }

  lemma NodeShaped(kids: seq<Tree>, seps: seq<u64>)
    requires |kids| == |seps| + 1 && forall k :: k in kids ==> Shaped(k)
    ensures Shaped(Node(kids, seps))
  {
    assert forall k :: 0 <= k < |kids| ==> kids[k] in kids;
  }

  lemma {:induction false} NodeStepShaped(kids: seq<Tree>, seps: seq<u64>, i: nat, left: Tree, right: Tree,
                                          sep: u64, page: nat, linking: Linking)
    requires |kids| == |seps| + 1 && i <= |seps| && Shaped(left) && Shaped(right)
    requires forall k :: 0 <= k < |kids| ==> Shaped(kids[k])
    ensures OutcomeShaped(NodeStep(kids, seps, i, left, right, sep, page, linking))
  {
    hide FilledNode, NodeFits, Grown, Shaped;
    GrownShaped(kids, seps, i, left, right, sep, linking);
    var (kids', seps') := Grown(kids, seps, i, left, right, sep, linking);
    NodeShaped(kids', seps');
    HalvesShaped(kids', seps', |seps'| / 2, page);
  }

  lemma {:induction false} HalvesShaped(kids: seq<Tree>, seps: seq<u64>, mid: nat, page: nat)
    requires |kids| == |seps| + 1 && mid < |seps| && forall k :: k in kids ==> Shaped(k)
    ensures Shaped(FilledNode(kids[..mid], seps[..mid], kids[mid], page))
    ensures Shaped(FilledNode(kids[mid + 1..|seps|], seps[mid + 1..], kids[|seps|], page))
  {
    hide FilledNode, Shaped;
    var a, b := kids[..mid], kids[mid + 1..|seps|];
    assert forall k :: k in a ==> k in kids;
    assert forall k :: k in b ==> k in kids;
    FilledNodeShaped(a, seps[..mid], kids[mid], page);
    FilledNodeShaped(b, seps[mid + 1..], kids[|seps|], page);
  }

  lemma {:induction false} InsertIntoShaped(t: Tree, row: Row, page: nat, linking: Linking)
    requires Shaped(t) && page >= MIN_PAGE
    ensures OutcomeShaped(InsertInto(t, row, page, linking))
  {
    hide LeafFits, PutRow, Filled, Rank, NodeStep, Joint;
    match t
    case Leaf(rows, used) =>
      PutHasRows(rows, row);
      if !LeafFits(rows, used, row, page) {
        FilledShaped([row], page);
        FilledShaped(Joint(rows, row)[..|Joint(rows, row)| / 2], page);
        FilledShaped(Joint(rows, row)[|Joint(rows, row)| / 2..], page);
      }
    case Node(kids, seps) =>
      var i := Rank(seps, row.key);
      InsertIntoShaped(kids[i], row, page, linking);
      match InsertInto(kids[i], row, page, linking) {
        case Whole(_) =>
        case Split(left, right, sep) => NodeStepShaped(kids, seps, i, left, right, sep, page, linking);
      }
  }

  lemma InsertShaped(t: Tree, row: Row, page: nat, linking: Linking)
    requires Shaped(t) && page >= MIN_PAGE
    ensures Shaped(Insert(t, row, page, linking))
  {
    hide InsertInto, FilledNode;
    InsertIntoShaped(t, row, page, linking);
    var o := InsertInto(t, row, page, linking);
    if o.Split? {
      FilledNodeShaped([o.tree], [o.sep], o.right, page);
    }
  }

  lemma {:induction false} DeleteShaped(t: Tree, key: u64)
    requires Shaped(t)
    ensures Shaped(Delete(t, key))
  {
    hide Rank, Has, WithoutKey;
    match t
    case Leaf(rows, _) => NoCellBytes();
    case Node(kids, seps) => DeleteShaped(kids[Rank(seps, key)], key);
  }

  // ---- operations and their answers ----

  datatype Op = Put(key: u64, value: Payload) | Remove(key: u64) | Find(key: u64) | List

  datatype Answer = Done | Removed(found: bool) | Found(value: Option<seq<byte>>) | Listed(items: seq<Item>)

  // The items are the entries of the map in strictly ascending key order.
  ghost predicate Lists(items: seq<Item>, m: map<u64, Payload>) {
    && (forall i, j :: 0 <= i < j < |items| ==> items[i].0 < items[j].0)
    && (forall i :: 0 <= i < |items| ==> items[i].0 in m && m[items[i].0] == items[i].1)
    && (forall k :: k in m ==> exists i :: 0 <= i < |items| && items[i].0 == k)
  }

  // The answer a finite map gives.
  ghost predicate Answers(m: map<u64, Payload>, op: Op, a: Answer) {
    match op
    case Put(_, _) => a == Done
    case Remove(key) => a == Removed(key in m)
    case Find(key) => a == Found(if key in m then Some(m[key]) else None)
    case List => a.Listed? && Lists(a.items, m)
  }

  function Updated(m: map<u64, Payload>, op: Op): map<u64, Payload> {
    match op
    case Put(key, value) => m[key := value]
    case Remove(key) => m - {key}
    case Find(_) => m
    case List => m
  }

  // A whole run is answered as by a map that starts as m and ends as m'.
  ghost predicate AnswersRun(m: map<u64, Payload>, ops: seq<Op>, answers: seq<Answer>, m': map<u64, Payload>)
    decreases |ops|
  {
    && |answers| == |ops|
    && if ops == [] then m' == m
       else Answers(m, ops[0], answers[0]) && AnswersRun(Updated(m, ops[0]), ops[1..], answers[1..], m')
  }

  // There is only one way to list a map.
  lemma {:induction false} ListsUnique(a: seq<Item>, b: seq<Item>, m: map<u64, Payload>)
    requires Lists(a, m) && Lists(b, m)
    ensures a == b
    decreases |a|
  {
    hide Lists;
    if a != [] {
      SomeListed(b, a, m);
      FirstIsLeast(a, b, m);
      FirstIsLeast(b, a, m);
      ListsRest(a, m);
      ListsRest(b, m);
      ListsUnique(a[1..], b[1..], m - {a[0].0});
      assert a == [a[0]] + a[1..] && b == [b[0]] + b[1..];
    } else if b != [] {
      SomeListed(a, b, m);
    }
  }

  lemma SomeListed(a: seq<Item>, b: seq<Item>, m: map<u64, Payload>)
    requires Lists(a, m) && Lists(b, m) && b != []
    ensures a != []
  {
    assert b[0].0 in m;
    var i :| 0 <= i < |a| && a[i].0 == b[0].0;
  }

  lemma FirstIsLeast(a: seq<Item>, b: seq<Item>, m: map<u64, Payload>)
    requires Lists(a, m) && Lists(b, m) && a != [] && b != []
    ensures a[0].0 <= b[0].0 && (a[0].0 == b[0].0 ==> a[0] == b[0])
  {
    var i :| 0 <= i < |a| && a[i].0 == b[0].0;
  }

  lemma ListsRest(a: seq<Item>, m: map<u64, Payload>)
    requires Lists(a, m) && a != []
    ensures Lists(a[1..], m - {a[0].0})
  {
    var m' := m - {a[0].0};
    forall k | k in m' ensures exists i :: 0 <= i < |a[1..]| && a[1..][i].0 == k {
      var i :| 0 <= i < |a| && a[i].0 == k;
      assert a[1..][i - 1].0 == k;
    }
  }

  // Scanning rows in order lists the map behind them.
  lemma RowsList(rows: seq<Row>, lo: int, hi: int)
    requires Between(rows, lo, hi)
    ensures Lists(Items(rows), MapOf(rows))
  {
    hide MapOf;
    BetweenKeys(rows, lo, hi);
    MapOfHolds(rows);
    forall i | 0 <= i < |rows| ensures rows[i].key in MapOf(rows) && MapOf(rows)[rows[i].key] == rows[i].value {
      assert rows[i] in rows;
    }
    forall k | k in MapOf(rows) ensures exists i :: 0 <= i < |Items(rows)| && Items(rows)[i].0 == k {
      var r :| r in rows && r.key == k;
      var i :| 0 <= i < |rows| && rows[i] == r;
      assert Items(rows)[i].0 == k;
    }
  }

  // A scan of a well-formed tree ascends and lists a pair exactly when a search finds it.
  lemma ScanIsSearch(t: Tree, h: nat, page: nat, key: u64, value: Payload)
    requires WellFormed(t, -1, LAST_KEY, h, page) && Shaped(t)
    ensures forall i, j :: 0 <= i < j < |Items(Rows(t))| ==> Items(Rows(t))[i].0 < Items(Rows(t))[j].0
    ensures (key, value) in Items(Rows(t)) <==> Lookup(t, key) == Some(value)
  {
    hide WellFormed, Rows, MapOf, Lookup;
    RowsBetween(t, -1, LAST_KEY, h, page);
    RowsList(Rows(t), -1, LAST_KEY);
    LookupFindsScan(t, -1, LAST_KEY, h, page, key);
    var items := Items(Rows(t));
    if key in MapOf(Rows(t)) {
      var i :| 0 <= i < |items| && items[i].0 == key;
      assert items[i] in items;
    }
  }

  // ---- runs ----

  // Every put of the run is clean, wherever the overflow of earlier rows was put.
  ghost predicate HarmlessRun(t: Tree, ops: seq<Op>, page: nat)
    requires Shaped(t) && page >= MIN_PAGE
    decreases |ops|
  {
    ops == [] ||
    match ops[0]
    case Put(key, value) =>
      forall spill: Chain ::
        var row := Row(key, value, spill);
        Clean(t, row, page) && (InsertShaped(t, row, page, AsCoded); HarmlessRun(Insert(t, row, page, AsCoded), ops[1..], page))
    case Remove(key) => (DeleteShaped(t, key); HarmlessRun(Delete(t, key), ops[1..], page))
    case Find(_) => HarmlessRun(t, ops[1..], page)
    case List => HarmlessRun(t, ops[1..], page)
  }

  // Each put uses a key above every key put before; what else happens is free.
  ghost predicate EverLarger(ops: seq<Op>, top: int) {
    ops == [] || match ops[0]
                 case Put(key, _) => key > top && EverLarger(ops[1..], key)
                 case Remove(_) => EverLarger(ops[1..], top)
                 case Find(_) => EverLarger(ops[1..], top)
                 case List => EverLarger(ops[1..], top)
  }

  // Runs of puts with ever-larger keys, interleaved with any deletions, searches and scans, are harmless.
  lemma {:induction false} EverLargerIsHarmless(t: Tree, ops: seq<Op>, top: int, h: nat, page: nat)
    requires WellFormed(t, -1, top, h, page) && -1 <= top && Shaped(t) && page >= MIN_PAGE && EverLarger(ops, top)
    ensures HarmlessRun(t, ops, page)
    decreases |ops|
  {
    hide WellFormed, Shaped, Clean, Insert, Delete, InsertInto, Rows;
    if ops != [] {
      match ops[0]
      case Put(key, value) =>
        forall spill: Chain
          ensures var row := Row(key, value, spill);
                  && Clean(t, row, page) && Shaped(Insert(t, row, page, AsCoded))
                  && HarmlessRun(Insert(t, row, page, AsCoded), ops[1..], page)
        {
          var row := Row(key, value, spill);
          HighKeyInsert(t, row, -1, top, h, page);
          InsertShaped(t, row, page, AsCoded);
          var h' := if InsertInto(t, row, page, AsCoded).Split? then h + 1 else h;
          EverLargerIsHarmless(Insert(t, row, page, AsCoded), ops[1..], key, h', page);
        }
      case Remove(key) =>
        DeleteInRange(t, key, -1, top, h, page);
        EverLargerIsHarmless(Delete(t, key), ops[1..], top, h, page);
      case Find(_) => EverLargerIsHarmless(t, ops[1..], top, h, page);
      case List => EverLargerIsHarmless(t, ops[1..], top, h, page);
    }
  }

  // The tree after inserting the rows one after the other.
  ghost function Loaded(rows: seq<Row>, page: nat, linking: Linking): (t: Tree)
    requires page >= MIN_PAGE
    ensures Shaped(t)
  {
    if rows == [] then Leaf([], 0)
    else
      var n := |rows| - 1;
      InsertShaped(Loaded(rows[..n], page, linking), rows[n], page, linking);
      Insert(Loaded(rows[..n], page, linking), rows[n], page, linking)
  }
}
