// Fresh keys in any order: what the step the separators ask for achieves over whole runs.
module FreshKeys {
  import opened Wrappers
  import opened Bytes
  import opened Keyed
  import opened TreeModel
  import opened TreeRows
  import opened TreeInvariant
  import opened TreeSizes
  import opened TreeInsertion
  import opened InsertTheorems
  import opened Runs

  // The leaf a key leads to is as full as its page allows, and its rows are rows of the tree.
  lemma {:induction false} LeafForFacts(t: Tree, key: u64, lo: int, hi: int, h: nat, page: nat)
    requires WellFormed(t, lo, hi, h, page) && Shaped(t)
    ensures var l := LeafFor(t, key); CellBytes(l.rows) <= l.used && l.used + 2 * |l.rows| <= LeafCapacity(page)
    ensures Lookup(LeafFor(t, key), key) == Lookup(t, key)
    decreases h
  {
    hide Rank, CellBytes, Between, SeparatorBytes, Has;
    match t
    case Leaf(_, _) =>
    case Node(kids, seps) =>
      var i := Rank(seps, key);
      NodeKid(t, lo, hi, h, page, i);
      LeafForFacts(kids[i], key, Lower(seps, lo, i), Upper(seps, hi, i), h - 1, page);
  }

  lemma {:induction false} LeafForRows(t: Tree, key: u64, r: Row)
    requires Shaped(t) && r in LeafFor(t, key).rows
    ensures r in Rows(t)
  {
    hide Rank, RowsOf;
    match t
    case Leaf(_, _) =>
    case Node(kids, seps) =>
      var i := Rank(seps, key);
      LeafForRows(kids[i], key, r);
      RowsAround(kids, i);
  }

  ghost predicate Sized(rows: seq<Row>, s: nat, S: nat) {
    forall r :: r in rows ==> s <= Footprint(r) <= S
  }

  // When all footprints lie in [s, S] and s * (C - S) >= S * S, no leaf is too full to be halved
  // by count, whatever the key.
  lemma RatioIsRoomy(t: Tree, row: Row, lo: int, hi: int, h: nat, page: nat, s: nat, S: nat)
    requires WellFormed(t, lo, hi, h, page) && Shaped(t)
    requires Sized(Rows(t), s, S) && s <= Footprint(row) <= S && RatioHolds(s, S, LeafCapacity(page))
    ensures Roomy(t, row, page)
  {
    hide WellFormed, Rows, LeafFor, Footprint, RatioHolds, LeafFits, Appends, HalvesFit, CellBytes, LeafCapacity;
    LeafForFacts(t, row.key, lo, hi, h, page);
    var l := LeafFor(t, row.key);
    forall i | 0 <= i < |l.rows| ensures s <= Footprint(l.rows[i]) <= S {
      LeafForRows(t, row.key, l.rows[i]);
    }
    RatioMakesRoom(l.rows, l.used, row, page, s, S);
  }

  // For a key that is not in the tree room is all it takes.
  lemma FreshTakes(t: Tree, row: Row, lo: int, hi: int, h: nat, page: nat)
    requires WellFormed(t, lo, hi, h, page) && Shaped(t) && Lookup(t, row.key) == None
    ensures Takes(t, row, page) <==> Roomy(t, row, page)
  {
    hide WellFormed, LeafFor, LeafFits, Rank, Has, HalvesFit, SplitTakes, Appends;
    LeafForFacts(t, row.key, lo, hi, h, page);
    NewKeyTakes(LeafFor(t, row.key).rows, row, page);
  }

  // One fresh row, with the entry of a split kid repointed: ordered, balanced, exactly one row more.
  lemma FreshInsert(t: Tree, row: Row, h: nat, page: nat, s: nat, S: nat) returns (h': nat)
    requires WellFormed(t, -1, LAST_KEY, h, page) && Shaped(t) && page >= MIN_PAGE
    requires Sized(Rows(t), s, S) && s <= Footprint(row) <= S && RatioHolds(s, S, LeafCapacity(page))
    requires forall r :: r in Rows(t) ==> r.key != row.key
    ensures var t' := Insert(t, row, page, AsMeant);
            && WellFormed(t', -1, LAST_KEY, h', page) && h <= h' <= h + 1
            && Sized(Rows(t'), s, S)
            && forall r :: r in Rows(t') <==> r == row || r in Rows(t)
  {
    hide WellFormed, Rows, Insert, InsertInto, Footprint, RatioHolds, Roomy, Takes, Lookup, MapOf, PutRow,
         LeafCapacity, Keys;
    RatioIsRoomy(t, row, -1, LAST_KEY, h, page, s, S);
    RowsBetween(t, -1, LAST_KEY, h, page);
    BetweenKeys(Rows(t), -1, LAST_KEY);
    MapOfHolds(Rows(t));
    LookupFindsScan(t, -1, LAST_KEY, h, page, row.key);
    FreshTakes(t, row, -1, LAST_KEY, h, page);
    InsertCorrect(t, row, -1, LAST_KEY, h, page, AsMeant);
    h' := if InsertInto(t, row, page, AsMeant).Split? then h + 1 else h;
    forall r: Row ensures r in PutRow(Rows(t), row) <==> r == row || r in Rows(t) {
      PutMembers(Rows(t), row, r);
    }
  }

  ghost predicate DistinctKeys(rows: seq<Row>) {
    forall i, j :: 0 <= i < j < |rows| ==> rows[i].key != rows[j].key
  }

  // Rows with distinct keys in any order, footprints in [s, S]: the separator contract keeps the tree
  // ordered, balanced and within its pages, and the tree ends up with exactly these rows.
  lemma {:induction false} FreshRun(rows: seq<Row>, page: nat, s: nat, S: nat) returns (h: nat)
    requires DistinctKeys(rows) && Sized(rows, s, S) && page >= MIN_PAGE && RatioHolds(s, S, LeafCapacity(page))
    ensures WellFormed(Loaded(rows, page, AsMeant), -1, LAST_KEY, h, page)
    ensures forall r :: r in Rows(Loaded(rows, page, AsMeant)) <==> r in rows
    ensures Sized(Rows(Loaded(rows, page, AsMeant)), s, S)
  {
    hide Insert, Footprint, RatioHolds, CellBytes, LeafCapacity;
    if rows == [] {
      h := 0;
      EmptyTree(page);
    } else {
      hide WellFormed, Rows;
      var n := |rows| - 1;
      var front, row := rows[..n], rows[n];
      assert rows == front + [row];
      var h0 := FreshRun(front, page, s, S);
      h := FreshInsert(Loaded(front, page, AsMeant), row, h0, page, s, S);
    }
  }

  lemma EmptyTree(page: nat)
    requires page >= MIN_PAGE
    ensures WellFormed(Leaf([], 0), -1, LAST_KEY, 0, page) && Rows(Leaf([], 0)) == []
  {
    NoCellBytes();
  }
}
