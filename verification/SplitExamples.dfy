// Inputs on which the insertion as coded departs from a map update: rows put into an empty table
// with pages of 4096 bytes, one after the other.
module SplitExamples {
  import opened Wrappers
  import opened Bytes
  import opened Cells
  import opened Keyed
  import opened TreeModel
  import opened TreeRows
  import opened TreeInvariant
  import opened TreeSizes
  import opened TreeInsertion
  import opened InsertTheorems
  import opened Runs
  import opened SplitLimits
  import V = Varint

  // A row whose payload is so many zero bytes.
  function Blank(key: u64, n: nat): (r: Row)
    requires n <= 1024
    ensures r.key == key && |r.value| == n
  {
    Row(key, seq(n, _ => 0), EMPTY_CHAIN)
  }

  function Big(key: u64): (r: Row)
    ensures r.key == key && |r.value| == 1024
  {
    Blank(key, 1024)
  }

  lemma SmallSize(row: Row)
    requires row.key < 0x4000 && |row.value| <= 1024
    ensures CellSize(row) == |row.value| + 4 + (if row.key < 128 then 1 else 2) + (if |row.value| < 128 then 1 else 2)
  {
    V.ShortLength(row.key);
    V.ShortLength(|row.value|);
  }

  lemma CellBytesSnoc(rows: seq<Row>, row: Row)
    ensures CellBytes(rows + [row]) == CellBytes(rows) + CellSize(row)
  {
    assert (rows + [row])[..|rows|] == rows;
  }

  // The page that holds so many bytes of cells.
  ghost predicate Page(rows: seq<Row>, bytes: nat) {
    Ascending(Keys(rows)) && CellBytes(rows) == bytes && bytes + 2 * |rows| <= LeafCapacity(4096)
  }

  lemma EmptyPage()
    ensures Page([], 0)
  {
  }

  // The next row goes to the end of the page.
  lemma PageSnoc(rows: seq<Row>, bytes: nat, row: Row, n: nat)
    requires Page(rows, bytes) && AllBelow(rows, row.key) && row.key < 0x4000 && |row.value| == n <= 1024
    requires bytes + 2 * |rows| + n + 10 <= LeafCapacity(4096)
    ensures Page(rows + [row], bytes + n + 4 + (if row.key < 128 then 1 else 2) + (if n < 128 then 1 else 2))
  {
    hide CellSize, CellBytes;
    SmallSize(row);
    CellBytesSnoc(rows, row);
  }

  // Rows of one page put in order end up in one leaf.
  lemma {:induction false} LoadedOnePage(rows: seq<Row>, bytes: nat)
    requires Page(rows, bytes)
    ensures Loaded(rows, 4096, AsCoded) == Leaf(rows, bytes)
  {
    hide CellSize, PutRow;
    if rows != [] {
      var n := |rows| - 1;
      FrontOfAscending(rows);
      LastIsGreatest(rows);
      CellBytesSnoc(rows[..n], rows[n]);
      FrontAndLast(rows);
      LoadedOnePage(rows[..n], CellBytes(rows[..n]));
      PutAtEnd(rows[..n], rows[n]);
    }
  }

  lemma LoadedSnoc(rows: seq<Row>, row: Row)
    ensures Loaded(rows + [row], 4096, AsCoded) == Insert(Loaded(rows, 4096, AsCoded), row, 4096, AsCoded)
  {
    assert (rows + [row])[..|rows|] == rows;
  }

  lemma FilledPage(rows: seq<Row>, bytes: nat)
    requires Page(rows, bytes)
    ensures Filled(rows, 4096) == Leaf(rows, bytes)
  {
    hide Filled, CellBytes, Ascending;
    FilledKeepsAll(rows, 4096);
  }

  // A further row that the page has no room for is left out.
  lemma FilledShort(rows: seq<Row>, bytes: nat, row: Row)
    requires Page(rows, bytes) && !LeafFits(rows, bytes, row, 4096)
    ensures Filled(rows + [row], 4096) == Leaf(rows, bytes)
  {
    hide CellBytes, Ascending, LeafFits, PutRow;
    FilledPage(rows, bytes);
    assert (rows + [row])[..|rows|] == rows;
  }

  // A full leaf whose rows, with the new one behind the first i of them, are left + right.
  lemma HalvedLeaf(rows: seq<Row>, bytes: nat, row: Row, i: nat, left: seq<Row>, right: seq<Row>)
    requires Ascending(Keys(rows)) && i < |rows| && !LeafFits(rows, bytes, row, 4096) && rows[|rows| - 1].key >= row.key
    requires (forall j :: 0 <= j < i ==> rows[j].key <= row.key) && row.key < rows[i].key
    requires left + right == rows[..i] + [row] + rows[i..] && |left| == (|rows| + 1) / 2
    ensures InsertInto(Leaf(rows, bytes), row, 4096, AsCoded)
         == Split(Filled(left, 4096), Filled(right, 4096), left[|left| - 1].key)
  {
    hide CellSize, Filled, Above, LeafFits;
    AboveIs(Keys(rows), row.key, i);
    var all := Joint(rows, row);
    assert all == left + right && all[..|left|] == left && all[|left|..] == right;
  }

  // ---- a split of a kid that is not the right child ----

  lemma TensPage()
    ensures Page([Big(10), Big(20), Big(30)], 3093)
  {
    hide Page, Big;
    EmptyPage();
    PageSnoc([], 0, Big(10), 1024);
    assert [] + [Big(10)] == [Big(10)];
    PageSnoc([Big(10)], 1031, Big(20), 1024);
    assert [Big(10)] + [Big(20)] == [Big(10), Big(20)];
    PageSnoc([Big(10), Big(20)], 2062, Big(30), 1024);
    assert [Big(10), Big(20)] + [Big(30)] == [Big(10), Big(20), Big(30)];
  }

  lemma PairPage(a: u64, b: u64)
    requires a < b < 128
    ensures Page([Big(a), Big(b)], 2062)
  {
    hide Page, Big;
    EmptyPage();
    PageSnoc([], 0, Big(a), 1024);
    assert [] + [Big(a)] == [Big(a)];
    PageSnoc([Big(a)], 1031, Big(b), 1024);
    assert [Big(a)] + [Big(b)] == [Big(a), Big(b)];
  }

  function Tens(): seq<Row> {
    [Big(10), Big(20), Big(30)]
  }

  lemma TensLoaded()
    ensures Loaded(Tens(), 4096, AsCoded) == Leaf(Tens(), 3093) && WellFormed(Leaf(Tens(), 3093), -1, 30, 0, 4096)
  {
    hide Big, CellBytes, Ascending, Loaded;
    TensPage();
    LoadedOnePage(Tens(), 3093);
  }

  lemma TensAreFull(row: Row)
    requires row.key < 0x4000 && |row.value| == 1024
    ensures !LeafFits(Tens(), 3093, row, 4096)
  {
    hide CellSize, Big;
    SmallSize(row);
  }

  // The fourth row is appended in a leaf of its own, below a new root.
  lemma FourLoaded()
    ensures var t := Loaded(Tens() + [Big(40)], 4096, AsCoded);
            && t == Node([Leaf(Tens(), 3093), Leaf([Big(40)], 1031)], [30]) && WellFormed(t, -1, 40, 1, 4096)
  {
    hide CellSize, Big, Tens, InsertInto, FilledNode, WellFormed;
    var full := Leaf(Tens(), 3093);
    TensLoaded();
    LoadedSnoc(Tens(), Big(40));
    FourthAppended();
    RootRows(InsertInto(full, Big(40), 4096, AsCoded), 4096);
    HighKeyInsert(full, Big(40), -1, 30, 0, 4096);
  }

  lemma FourthAppended()
    ensures InsertInto(Leaf(Tens(), 3093), Big(40), 4096, AsCoded) == Split(Leaf(Tens(), 3093), Leaf([Big(40)], 1031), 30)
  {
    hide CellSize, Big, LeafFits, Filled, Page;
    TensAreFull(Big(40));
    EmptyPage();
    PageSnoc([], 0, Big(40), 1024);
    assert [] + [Big(40)] == [Big(40)];
    FilledPage([Big(40)], 1031);
  }

  // The halves of the first leaf when 5 is put.
  lemma FirstLeafSplits()
    ensures var full := Leaf(Tens(), 3093);
            && InsertInto(full, Big(5), 4096, AsCoded)
               == Split(Leaf([Big(5), Big(10)], 2062), Leaf([Big(20), Big(30)], 2062), 10)
            && LeafTakes(full, Big(5), 4096)
  {
    hide CellSize, Big, LeafFits, CellBytes, Filled, InsertInto, LeafTakes;
    TensPage();
    TensAreFull(Big(5));
    PairPage(5, 10);
    PairPage(20, 30);
    FilledPage([Big(5), Big(10)], 2062);
    FilledPage([Big(20), Big(30)], 2062);
    HalvedLeaf(Tens(), 3093, Big(5), 0, [Big(5), Big(10)], [Big(20), Big(30)]);
    FreshHalves(Tens(), 3093, Big(5), 0, [Big(5), Big(10)], [Big(20), Big(30)]);
  }

  // A new key that leaves two halves which fit.
  lemma FreshHalves(rows: seq<Row>, bytes: nat, row: Row, i: nat, left: seq<Row>, right: seq<Row>)
    requires Ascending(Keys(rows)) && i < |rows| && (forall j :: 0 <= j < i ==> rows[j].key < row.key) && row.key < rows[i].key
    requires left + right == rows[..i] + [row] + rows[i..] && |left| == (|rows| + 1) / 2
    requires FitsAlone(left, 4096) && FitsAlone(right, 4096)
    ensures LeafTakes(Leaf(rows, bytes), row, 4096)
  {
    hide CellBytes, Rank, Above;
    AboveIs(Keys(rows), row.key, i);
    RankIs(Keys(rows), row.key, i);
    NewKeyTakes(rows, row, 4096);
    var all := Joint(rows, row);
    assert all == left + right && all[..|left|] == left && all[|left|..] == right;
  }

  // Five rows put into an empty table: after 10, 20, 30, 40 and 5 the keys 20 and 30 are gone.
  lemma MiddleSplitExample()
    ensures var before, after := Loaded(Tens() + [Big(40)], 4096, AsCoded), Loaded(Tens() + [Big(40)] + [Big(5)], 4096, AsCoded);
            && Lookup(before, 20).Some? && Lookup(before, 30).Some?
            && Lookup(after, 20) == None && Lookup(after, 30) == None
  {
    hide CellSize, Big, Loaded, LeafFits, InsertInto, Insert, WellFormed, LeafTakes, PromotedKey, Rank;
    var t := Loaded(Tens() + [Big(40)], 4096, AsCoded);
    FourLoaded();
    FirstLeafSplits();
    RankIs([30], 5, 0);
    var full := t.kids[0];
    MiddleSplitHides(t, Big(5), -1, 40, 1, 4096, Big(20));
    MiddleSplitHides(t, Big(5), -1, 40, 1, 4096, Big(30));
    LoadedSnoc(Tens() + [Big(40)], Big(5));
    FoundInFirst(20, 1);
    FoundInFirst(30, 2);
  }

  lemma FoundInFirst(key: u64, i: nat)
    requires (key == 20 && i == 1) || (key == 30 && i == 2)
    ensures Lookup(Loaded(Tens() + [Big(40)], 4096, AsCoded), key).Some?
  {
    hide CellSize, Big, Loaded, Rank, WellFormed;
    FourLoaded();
    RankIs([30], key, 0);
    RankIs(Keys(Tens()), key, i);
  }

  // ---- an upsert that straddles the cut ----

  // With the first leaf of the example full, another payload put under 20 is not seen by a search.
  lemma StaleReadExample(payload: Payload)
    requires |payload| == 1024
    ensures var t := Loaded(Tens(), 4096, AsCoded);
            var t' := Loaded(Tens() + [Row(20, payload, EMPTY_CHAIN)], 4096, AsCoded);
            Lookup(t, 20) == Some(Big(20).value) && Lookup(t', 20) == Some(Big(20).value)
  {
    hide CellSize, Big, Loaded, Insert, CellBytes, LeafFits, WellFormed, Rank, LeafTakes;
    var row := Row(20, payload, EMPTY_CHAIN);
    TensLoaded();
    TensAreFull(row);
    RankIs(Keys(Tens()), 20, 1);
    LoadedSnoc(Tens(), row);
    StaleRead(Loaded(Tens(), 4096, AsCoded), row, -1, 30, 0, 4096);
  }

  // ---- halves by count that do not fit ----

  // Rows 1 to n without payload.
  function Smalls(n: nat): (rows: seq<Row>)
    requires n < 100
    ensures |rows| == n && forall i :: 0 <= i < n ==> rows[i] == Blank(i + 1, 0)
  {
    seq(n, i requires 0 <= i < n => Blank(i + 1, 0))
  }

  lemma {:induction false} SmallsPage(n: nat)
    requires n < 100
    ensures Page(Smalls(n), 6 * n)
  {
    hide Page, Blank;
    if n == 0 {
      EmptyPage();
    } else {
      SmallsPage(n - 1);
      PageSnoc(Smalls(n - 1), 6 * (n - 1), Blank(n, 0), 0);
      assert Smalls(n - 1) + [Blank(n, 0)] == Smalls(n);
    }
  }

  function Hundreds(): seq<Row> {
    [Big(100), Big(200), Big(300)]
  }

  lemma HundredsPage(rows: seq<Row>, bytes: nat)
    requires Page(rows, bytes) && AllBelow(rows, 100) && bytes + 2 * |rows| <= 800
    ensures Page(rows + [Big(100), Big(200)], bytes + 2063) && Page(rows + Hundreds(), bytes + 3095)
  {
    hide Page, Big;
    PageSnoc(rows, bytes, Big(100), 1024);
    PageSnoc(rows + [Big(100)], bytes + 1031, Big(200), 1024);
    assert rows + [Big(100)] + [Big(200)] == rows + [Big(100), Big(200)];
    PageSnoc(rows + [Big(100), Big(200)], bytes + 2063, Big(300), 1024);
    assert rows + [Big(100), Big(200)] + [Big(300)] == rows + Hundreds();
  }

  lemma LoadedHundreds(n: nat)
    requires n < 10
    ensures var rows := Smalls(n) + Hundreds();
            && Page(rows, 6 * n + 3095) && Loaded(rows, 4096, AsCoded) == Leaf(rows, 6 * n + 3095)
            && Lookup(Loaded(rows, 4096, AsCoded), 300) == Some(Big(300).value)
  {
    hide CellSize, Big, CellBytes, Rank, Loaded;
    var rows := Smalls(n) + Hundreds();
    SmallsPage(n);
    HundredsPage(Smalls(n), 6 * n);
    LoadedOnePage(rows, 6 * n + 3095);
    assert Keys(rows)[n + 2] == 300;
    RankIs(Keys(rows), 300, n + 2);
  }

  lemma HundredsAreFull(n: nat, row: Row)
    requires 4 <= n < 10 && row.key < 0x4000 && 910 < |row.value| <= 1024
    ensures !LeafFits(Smalls(n) + Hundreds(), 6 * n + 3095, row, 4096)
  {
    hide CellSize, Big;
    SmallSize(row);
  }

  // A leaf that is split into these two, put below a new root.
  lemma SplitLookup(t: Tree, row: Row, left: seq<Row>, lused: nat, right: seq<Row>, rused: nat, sep: u64, key: u64)
    requires Shaped(t) && InsertInto(t, row, 4096, AsCoded) == Split(Leaf(left, lused), Leaf(right, rused), sep)
    requires sep < key && Ascending(Keys(right))
    ensures Shaped(Insert(t, row, 4096, AsCoded))
    ensures Lookup(Insert(t, row, 4096, AsCoded), key).Some? <==> key in Keys(right)
  {
    hide InsertInto, Insert, Rank;
    RootLookup(t, row, 4096, key);
    HasIff(Keys(right), key);
  }

  // 1 to 4 without payload, 100, 200 and 300 with 1024 bytes; then 250 with 1024 bytes: 300 is gone.
  lemma CrampedExample()
    ensures var rows := Smalls(4) + Hundreds();
            && Lookup(Loaded(rows, 4096, AsCoded), 300) == Some(Big(300).value)
            && Lookup(Loaded(rows + [Big(250)], 4096, AsCoded), 300) == None
  {
    hide CellSize, Big, CellBytes, Loaded, LeafFits, InsertInto, Insert, Page, Lookup;
    var rows := Smalls(4) + Hundreds();
    LoadedHundreds(4);
    HundredsAreFull(4, Big(250));
    LoadedSnoc(rows, Big(250));
    CrampedSplit();
    SplitLookup(Leaf(rows, 3119), Big(250), Smalls(4), 24, [Big(100), Big(200), Big(250)], 3095, 4, 300);
  }

  lemma CrampedSplit()
    ensures InsertInto(Leaf(Smalls(4) + Hundreds(), 3119), Big(250), 4096, AsCoded)
         == Split(Leaf(Smalls(4), 24), Leaf([Big(100), Big(200), Big(250)], 3095), 4)
  {
    hide CellSize, Big, CellBytes, LeafFits, InsertInto, Filled, Page, Smalls, Hundreds;
    var rows, three := Smalls(4) + Hundreds(), [Big(100), Big(200), Big(250)];
    LoadedHundreds(4);
    HundredsAreFull(4, Big(250));
    SmallsPage(4);
    FilledPage(Smalls(4), 24);
    CrampedRight();
    CrampedRows(rows, three);
    HalvedLeaf(rows, 3119, Big(250), 6, Smalls(4), three + [Big(300)]);
  }

  lemma CrampedRight()
    ensures Filled([Big(100), Big(200), Big(250)] + [Big(300)], 4096) == Leaf([Big(100), Big(200), Big(250)], 3095)
  {
    hide CellSize, Big, CellBytes, LeafFits, Filled, Page;
    var two, three := [Big(100), Big(200)], [Big(100), Big(200), Big(250)];
    EmptyPage();
    HundredsPage([], 0);
    assert [] + two == two && two + [Big(250)] == three;
    PageSnoc(two, 2063, Big(250), 1024);
    NoFourth(three, 3095);
    FilledShort(three, 3095, Big(300));
  }

  lemma CrampedRows(rows: seq<Row>, three: seq<Row>)
    requires rows == Smalls(4) + Hundreds() && three == [Big(100), Big(200), Big(250)]
    ensures |rows| == 7 && rows[6].key == 300 && (forall i :: 0 <= i < 6 ==> rows[i].key <= 200)
    ensures Page(rows, 3119) ==> Ascending(Keys(rows))
    ensures Smalls(4) + (three + [Big(300)]) == rows[..6] + [Big(250)] + rows[6..] && |Smalls(4)| == 4
    ensures Smalls(4)[3].key == 4
  {
    hide Big, Blank, CellBytes;
  }

  lemma NoFourth(rows: seq<Row>, bytes: nat)
    requires |rows| == 3 && bytes >= 3090
    ensures !LeafFits(rows, bytes, Big(300), 4096)
  {
    hide CellSize, Big;
    SmallSize(Big(300));
  }

  // 1 to 5 without payload, 100, 200 and 300 with 1024 bytes; then 5 with a payload of so many bytes.
  lemma UpsertedHalves(row: Row)
    requires row.key == 5 && 910 < |row.value| <= 1024
    ensures InsertInto(Leaf(Smalls(5) + Hundreds(), 3125), row, 4096, AsCoded)
         == Split(Leaf(Smalls(4), 24), Filled([Blank(5, 0), row] + Hundreds(), 4096), 4)
  {
    hide CellSize, Big, CellBytes, LeafFits, InsertInto, Filled;
    var rows, right := Smalls(5) + Hundreds(), [Blank(5, 0), row] + Hundreds();
    LoadedHundreds(5);
    HundredsAreFull(5, row);
    SmallsPage(4);
    FilledPage(Smalls(4), 24);
    assert Smalls(4) + right == rows[..5] + [row] + rows[5..];
    HalvedLeaf(rows, 3125, row, 5, Smalls(4), right);
  }

  // With 1024 bytes 300 is gone.
  lemma CrampedUpsertExample()
    ensures var rows := Smalls(5) + Hundreds();
            && Lookup(Loaded(rows, 4096, AsCoded), 300) == Some(Big(300).value)
            && Lookup(Loaded(rows + [Big(5)], 4096, AsCoded), 300) == None
  {
    hide CellSize, Big, CellBytes, Loaded, LeafFits, InsertInto, Insert, Page, Lookup, Filled;
    var rows := Smalls(5) + Hundreds();
    LoadedHundreds(5);
    LoadedSnoc(rows, Big(5));
    UpsertedHalves(Big(5));
    UpsertedRight();
    SplitLookup(Leaf(rows, 3125), Big(5), Smalls(4), 24, [Big(5), Big(100), Big(200)], 3100, 4, 300);
  }

  lemma UpsertedRight()
    ensures Filled([Blank(5, 0), Big(5)] + Hundreds(), 4096) == Leaf([Big(5), Big(100), Big(200)], 3100)
  {
    hide CellSize, CellBytes, LeafFits, Filled, Blank, Big, Ascending;
    var p, q, b := [Blank(5, 0), Big(5)], [Big(5)], [Big(100), Big(200)];
    PairFilled(Big(5));
    UpsertedFront();
    FilledOnward(p, q, 1037, b, 4096);
    NoFourth(q + b, 3100);
    FilledSkips(p + b, Big(300));
    LastHundred(p);
  }

  lemma UpsertedFront()
    ensures var q, b := [Big(5)], [Big(100), Big(200)];
            && q + b == [Big(5), Big(100), Big(200)] && Ascending(Keys(q + b))
            && CellBytes(b) == 2063 && |b| == 2 && |q| == 1
  {
    hide CellSize, CellBytes, Big, Page, Ascending, Keys;
    var q, b := [Big(5)], [Big(100), Big(200)];
    EmptyPage();
    HundredsPage([], 0);
    assert [] + b == b;
    PageFacts(b, 2063);
    PageSnoc([], 0, Big(5), 1024);
    assert [] + [Big(5)] == q;
    PageSnoc(q, 1031, Big(100), 1024);
    PageSnoc(q + [Big(100)], 2062, Big(200), 1024);
    assert q + [Big(100)] + [Big(200)] == q + b;
    PageFacts(q + b, 3094);
  }

  lemma PageFacts(rows: seq<Row>, bytes: nat)
    requires Page(rows, bytes)
    ensures Ascending(Keys(rows)) && CellBytes(rows) == bytes
  {
    hide CellBytes, Ascending;
  }

  lemma LastHundred(p: seq<Row>)
    ensures p + Hundreds() == (p + [Big(100), Big(200)]) + [Big(300)]
  {
    hide Big;
  }

  lemma FilledSkips(rows: seq<Row>, row: Row)
    requires var t := Filled(rows, 4096); !LeafFits(t.rows, t.used, row, 4096)
    ensures Filled(rows + [row], 4096) == Filled(rows, 4096)
  {
    hide LeafFits, PutRow, CellSize;
    assert (rows + [row])[..|rows|] == rows;
  }

  lemma PairFilled(row: Row)
    requires row.key == 5 && |row.value| == 1024
    ensures Filled([Blank(5, 0), row], 4096) == Leaf([row], 1037)
  {
    hide CellSize, Filled, Blank;
    var was := Blank(5, 0);
    SmallSize(was);
    SmallSize(row);
    CellBytesOne(was);
    CellBytesOne(row);
    CellBytesConcat([was], [row]);
    assert [] + [was, row] == [was, row] && [] + [was] == [was] && [] + [row] == [row] && [was] + [row] == [was, row];
    PairFront([], was, row, 4096);
  }

  // With 931 bytes the half has one byte too many, but the old row's pointer is free again by the time
  // 300 is put: the leaf takes the row.
  lemma TightUpsertExample()
    ensures var rows, row := Smalls(5) + Hundreds(), Blank(5, 931);
            && !HalvesFit(rows, row, 4096)
            && Rows(Loaded(rows + [row], 4096, AsCoded)) == PutRow(rows, row)
  {
    hide CellSize, CellBytes, Loaded, LeafFits, Insert, PutRow, Blank, Big, HalvesFit, SplitsMiddle, WellFormed, LeafTakes;
    var rows, row := Smalls(5) + Hundreds(), Blank(5, 931);
    LoadedHundreds(5);
    LoadedSnoc(rows, row);
    TightHalf();
    PageWellFormed(rows, 3125);
    InsertExact(Leaf(rows, 3125), row, -1, LAST_KEY, 0, 4096);
    assert !SplitsMiddle(Leaf(rows, 3125), row, 4096) by { NoMiddleInLeaf(Leaf(rows, 3125), row); }
  }

  lemma NoMiddleInLeaf(l: Tree, row: Row)
    requires l.Leaf? && Shaped(l)
    ensures !SplitsMiddle(l, row, 4096)
  {
  }

  lemma PageWellFormed(rows: seq<Row>, bytes: nat)
    requires Page(rows, bytes)
    ensures WellFormed(Leaf(rows, bytes), -1, LAST_KEY, 0, 4096)
  {
    hide CellBytes;
    NoCellBytes();
    forall i, j | 0 <= i < j < |rows| ensures rows[i].key < rows[j].key {
      assert Keys(rows)[i] < Keys(rows)[j];
    }
  }

  lemma TightHalf()
    ensures var rows, row := Smalls(5) + Hundreds(), Blank(5, 931);
            !HalvesFit(rows, row, 4096) && LeafTakes(Leaf(rows, 3125), row, 4096)
  {
    hide CellSize, CellBytes, LeafFits, Blank, Big, Rank, Above, Page, Smalls, Hundreds, PairFits;
    var rows, was, row := Smalls(5) + Hundreds(), Blank(5, 0), Blank(5, 931);
    var right := [was, row] + Hundreds();
    TightBytes(was, row);
    LoadedHundreds(5);
    TightRows(rows, was, row);
    RankIs(Keys(rows), 5, 4);
    AboveIs(Keys(rows), 5, 5);
    assert Joint(rows, row)[4..] == right;
    TightPair(was, row);
  }

  lemma TightRows(rows: seq<Row>, was: Row, row: Row)
    requires rows == Smalls(5) + Hundreds() && was == Blank(5, 0)
    ensures |rows| == 8 && Keys(rows)[4] == 5 && Keys(rows)[5] == 100 && rows[4] == was
    ensures forall i :: 0 <= i < 4 ==> Keys(rows)[i] < 5
    ensures Inserted(rows, 5, row) == Smalls(4) + ([was, row] + Hundreds()) && |Smalls(4)| == 4
    ensures rows[4..4] == [] && rows[5..] == Hundreds()
  {
    hide Big, Blank;
  }

  lemma TightPair(was: Row, row: Row)
    requires CellBytes([was, row] + Hundreds()) == 4039
    ensures PairFits([], was, row, Hundreds(), 4096) && !FitsAlone([was, row] + Hundreds(), 4096)
  {
    hide CellBytes, Big;
    assert [] + [was, row] + Hundreds() == [was, row] + Hundreds();
  }

  lemma TightBytes(was: Row, row: Row)
    requires was.key == row.key == 5 && |was.value| == 0 && |row.value| == 931
    ensures CellBytes([was, row] + Hundreds()) == 4039
  {
    hide CellSize, CellBytes, Big;
    SmallSize(was);
    SmallSize(row);
    CellBytesOne(was);
    CellBytesConcat([was], [row]);
    CellBytesOne(row);
    assert [was] + [row] == [was, row];
    EmptyPage();
    HundredsPage([], 0);
    assert [] + Hundreds() == Hundreds();
    CellBytesConcat([was, row], Hundreds());
  }
}
