// Well-formed trees: order, routing bounds, equal depth and page capacities.
module TreeInvariant {
  import opened Wrappers
  import opened Bytes
  import opened Keyed
  import opened TreeModel
  import opened TreeRows

  // The keys below kid i lie in (Lower(i), Upper(i)].
  function Lower(seps: seq<u64>, lo: int, i: nat): int
    requires i <= |seps|
  {
    if i == 0 then lo else seps[i - 1]
  }

  function Upper(seps: seq<u64>, hi: int, i: nat): int
    requires i <= |seps|
  {
    if i < |seps| then seps[i] else hi
  }

  // Every row has its key in (lo, hi] and in the range its separators promise, keys and
  // separators ascend strictly, all leaves are at depth h, and every node fits its page.
  ghost predicate WellFormed(t: Tree, lo: int, hi: int, h: nat, page: nat)
    decreases h
  {
    match t
    case Leaf(rows, used) =>
      && h == 0
      && Between(rows, lo, hi)
      && CellBytes(rows) <= used && used + 2 * |rows| <= LeafCapacity(page)
      && (rows == [] ==> used == 0)
    case Node(kids, seps) =>
      && h > 0
      && |kids| == |seps| + 1
      && Ascending(seps)
      && (forall i :: 0 <= i < |seps| ==> lo < seps[i] < hi)
      && SeparatorBytes(seps) + 2 * |seps| <= NodeCapacity(page)
      && forall i :: 0 <= i < |kids| ==> WellFormed(kids[i], Lower(seps, lo, i), Upper(seps, hi, i), h - 1, page)
  }

  lemma {:induction false} WellFormedIsShaped(t: Tree, lo: int, hi: int, h: nat, page: nat)
    requires WellFormed(t, lo, hi, h, page)
    ensures Shaped(t)
    decreases h
  {
    hide Between, CellBytes, SeparatorBytes, Ascending;
    match t
    case Leaf(_, _) =>
    case Node(kids, seps) =>
      forall i | 0 <= i < |kids| ensures Shaped(kids[i]) {
        WellFormedIsShaped(kids[i], Lower(seps, lo, i), Upper(seps, hi, i), h - 1, page);
      }
  }

  lemma NodeFacts(t: Tree, lo: int, hi: int, h: nat, page: nat)
    requires WellFormed(t, lo, hi, h, page) && t.Node?
    ensures h > 0 && |t.kids| == |t.seps| + 1 && Ascending(t.seps)
    ensures SeparatorBytes(t.seps) + 2 * |t.seps| <= NodeCapacity(page)
    ensures lo <= hi ==> forall i :: 0 <= i < |t.kids| ==> lo <= Lower(t.seps, lo, i) <= Upper(t.seps, hi, i) <= hi
  {
    hide SeparatorBytes;
    forall i | 0 <= i < |t.kids| && lo <= hi
      ensures lo <= Lower(t.seps, lo, i) <= Upper(t.seps, hi, i) <= hi
    {
      if 0 < i < |t.seps| {
        assert t.seps[i - 1] < t.seps[i];
      }
    }
  }

  lemma LowerMonotone(t: Tree, lo: int, hi: int, h: nat, page: nat, a: nat, b: nat)
    requires WellFormed(t, lo, hi, h, page) && t.Node?
    requires a <= b < |t.kids| == |t.seps| + 1
    ensures Lower(t.seps, lo, a) <= Lower(t.seps, lo, b)
  {
    hide SeparatorBytes;
    if 0 < a < b {
      assert t.seps[a - 1] < t.seps[b - 1];
    }
  }

  lemma NodeKid(t: Tree, lo: int, hi: int, h: nat, page: nat, i: nat)
    requires WellFormed(t, lo, hi, h, page) && t.Node? && i < |t.kids|
    ensures h > 0 && |t.kids| == |t.seps| + 1
    ensures WellFormed(t.kids[i], Lower(t.seps, lo, i), Upper(t.seps, hi, i), h - 1, page)
  {
  }

  // In a well-formed tree the rows ascend from leaf to leaf: a scan is sorted.
  lemma {:induction false} RowsBetween(t: Tree, lo: int, hi: int, h: nat, page: nat)
    requires WellFormed(t, lo, hi, h, page) && lo <= hi
    ensures Between(Rows(t), lo, hi)
    decreases h, if t.Node? then |t.kids| + 1 else 0
  {
    match t
    case Leaf(_, _) =>
    case Node(kids, seps) =>
      hide Between, RowsOf;
      KidsBetween(t, lo, hi, h, page, 0, |kids|);
      assert kids[0..|kids|] == kids;
  }

  lemma {:induction false} KidsBetween(t: Tree, lo: int, hi: int, h: nat, page: nat, a: nat, b: nat)
    requires WellFormed(t, lo, hi, h, page) && t.Node? && lo <= hi
    requires a < b <= |t.kids| == |t.seps| + 1
    ensures Between(RowsOf(t.kids[a..b]), Lower(t.seps, lo, a), Upper(t.seps, hi, b - 1))
    decreases h, b
  {
    hide WellFormed, Rows, RowsOf, Between, Ascending;
    var kids, seps := t.kids, t.seps;
    var last := kids[b - 1];
    NodeFacts(t, lo, hi, h, page);
    NodeKid(t, lo, hi, h, page, b - 1);
    RowsBetween(last, Lower(seps, lo, b - 1), Upper(seps, hi, b - 1), h - 1, page);
    RowsOfOne(last);
    if a == b - 1 {
      SliceOne(kids, a);
    } else {
      KidsBetween(t, lo, hi, h, page, a, b - 1);
      SliceSnoc(kids, a, b);
      RowsOfConcat(kids[a..b - 1], [last]);
      LowerMonotone(t, lo, hi, h, page, a, b - 1);
      BetweenConcat(RowsOf(kids[a..b - 1]), Lower(seps, lo, a), Lower(seps, lo, b - 1),
                    Rows(last), Upper(seps, hi, b - 1));
    }
  }

  lemma RankRange(seps: seq<u64>, lo: int, hi: int, key: u64)
    requires lo < key as int <= hi
    ensures var i := Rank(seps, key); Lower(seps, lo, i) < key <= Upper(seps, hi, i)
  {
    hide Rank;
  }

  // The rows left and right of kid i are below and above its key range.
  lemma KidContext(t: Tree, lo: int, hi: int, h: nat, page: nat, i: nat)
    requires WellFormed(t, lo, hi, h, page) && t.Node? && lo <= hi && i < |t.kids| == |t.seps| + 1
    ensures Rows(t) == RowsOf(t.kids[..i]) + Rows(t.kids[i]) + RowsOf(t.kids[i + 1..])
    ensures Between(RowsOf(t.kids[..i]), lo, Lower(t.seps, lo, i))
    ensures Between(RowsOf(t.kids[i + 1..]), Upper(t.seps, hi, i), hi)
  {
    hide WellFormed, RowsOf;
    var kids := t.kids;
    RowsAround(kids, i);
    if i > 0 {
      assert kids[..i] == kids[0..i];
      KidsBetween(t, lo, hi, h, page, 0, i);
    } else {
      assert kids[..i] == [];
      RowsOfNone();
    }
    if i + 1 < |kids| {
      assert kids[i + 1..] == kids[i + 1..|kids|];
      KidsBetween(t, lo, hi, h, page, i + 1, |kids|);
    } else {
      assert kids[i + 1..] == [];
      RowsOfNone();
    }
  }

  lemma RowsOfNone()
    ensures RowsOf([]) == []
  {
  }

  // Keys below kid i come before, keys above it after, any key of its range.
  lemma KidAlone(t: Tree, lo: int, hi: int, h: nat, page: nat, i: nat, key: u64)
    requires WellFormed(t, lo, hi, h, page) && t.Node? && lo <= hi && i < |t.kids| == |t.seps| + 1
    requires Lower(t.seps, lo, i) < key as int <= Upper(t.seps, hi, i)
    ensures Rows(t) == RowsOf(t.kids[..i]) + Rows(t.kids[i]) + RowsOf(t.kids[i + 1..])
    ensures AllBelow(RowsOf(t.kids[..i]), key) && AllAbove(RowsOf(t.kids[i + 1..]), key)
  {
    hide WellFormed, RowsOf, Rows;
    KidContext(t, lo, hi, h, page, i);
  }

  // Searching by routing finds a row exactly when a scan lists it.
  lemma {:induction false} LookupFindsScan(t: Tree, lo: int, hi: int, h: nat, page: nat, key: u64)
    requires WellFormed(t, lo, hi, h, page) && lo < key as int <= hi
    ensures Shaped(t)
    ensures Lookup(t, key) == (if key in MapOf(Rows(t)) then Some(MapOf(Rows(t))[key]) else None)
    decreases h
  {
    WellFormedIsShaped(t, lo, hi, h, page);
    LookupIsRanked(t, lo, hi, h, page, key);
    RowsBetween(t, lo, hi, h, page);
    BetweenKeys(Rows(t), lo, hi);
    FoundIsMapped(Rows(t), key);
  }

  lemma {:induction false} LookupIsRanked(t: Tree, lo: int, hi: int, h: nat, page: nat, key: u64)
    requires WellFormed(t, lo, hi, h, page) && lo < key as int <= hi
    requires Shaped(t)
    ensures Lookup(t, key)
         == if Has(Keys(Rows(t)), key) then Some(Rows(t)[Rank(Keys(Rows(t)), key)].value) else None
    decreases h
  {
    hide Rank, Has, WellFormed, RowsOf, Keys;
    match t
    case Leaf(rows, _) =>
    case Node(kids, seps) =>
      var i := Rank(seps, key);
      NodeFacts(t, lo, hi, h, page);
      NodeKid(t, lo, hi, h, page, i);
      RankRange(seps, lo, hi, key);
      LookupIsRanked(kids[i], Lower(seps, lo, i), Upper(seps, hi, i), h - 1, page, key);
      KidAlone(t, lo, hi, h, page, i, key);
      FoundAmong(RowsOf(kids[..i]), Rows(kids[i]), RowsOf(kids[i + 1..]), key);
  }

  lemma FoundAmong(a: seq<Row>, y: seq<Row>, b: seq<Row>, key: u64)
    requires AllBelow(a, key) && AllAbove(b, key)
    ensures Has(Keys(a + y + b), key) <==> Has(Keys(y), key)
    ensures Has(Keys(y), key) ==> (a + y + b)[Rank(Keys(a + y + b), key)] == y[Rank(Keys(y), key)]
  {
    hide Rank, Keys;
    RankAmong(a, y, b, key);
  }

  // Replacing one kid by another for the same key range keeps the node well-formed.
  lemma KidReplaced(t: Tree, lo: int, hi: int, h: nat, page: nat, i: nat, kid: Tree)
    requires WellFormed(t, lo, hi, h, page) && t.Node? && i < |t.kids| == |t.seps| + 1 && h > 0
    requires WellFormed(kid, Lower(t.seps, lo, i), Upper(t.seps, hi, i), h - 1, page)
    ensures WellFormed(Node(t.kids[i := kid], t.seps), lo, hi, h, page)
  {
    hide Between, SeparatorBytes;
  }

  // Deleting keeps the tree well-formed, its root and its depth, and removes exactly one key.
  lemma {:induction false} DeleteCorrect(t: Tree, lo: int, hi: int, h: nat, page: nat, key: u64)
    requires WellFormed(t, lo, hi, h, page) && lo < key as int <= hi
    requires Shaped(t)
    ensures WellFormed(Delete(t, key), lo, hi, h, page)
    ensures Rows(Delete(t, key)) == WithoutKey(Rows(t), key)
    decreases h
  {
    hide Rank, Has, RowsOf, Keys, WellFormed, WithoutKey;
    match t
    case Leaf(rows, used) => DeleteFromLeaf(t, lo, hi, h, page, key);
    case Node(kids, seps) =>
      var i := Rank(seps, key);
      NodeFacts(t, lo, hi, h, page);
      NodeKid(t, lo, hi, h, page, i);
      RankRange(seps, lo, hi, key);
      DeleteCorrect(kids[i], Lower(seps, lo, i), Upper(seps, hi, i), h - 1, page, key);
      DeleteFromKid(t, lo, hi, h, page, key, i, Delete(kids[i], key));
  }

  lemma DeleteFromKid(t: Tree, lo: int, hi: int, h: nat, page: nat, key: u64, i: nat, kid: Tree)
    requires WellFormed(t, lo, hi, h, page) && t.Node? && h > 0 && lo <= hi
    requires i < |t.kids| == |t.seps| + 1
    requires Lower(t.seps, lo, i) < key as int <= Upper(t.seps, hi, i)
    requires WellFormed(kid, Lower(t.seps, lo, i), Upper(t.seps, hi, i), h - 1, page)
    requires Rows(kid) == WithoutKey(Rows(t.kids[i]), key)
    ensures WellFormed(Node(t.kids[i := kid], t.seps), lo, hi, h, page)
    ensures RowsOf(t.kids[i := kid]) == WithoutKey(RowsOf(t.kids), key)
  {
    hide RowsOf, Keys, WellFormed, WithoutKey;
    var kids := t.kids;
    KidReplaced(t, lo, hi, h, page, i, kid);
    RowsReplaced(kids, i, kid);
    KidAlone(t, lo, hi, h, page, i, key);
    WithoutAmong(RowsOf(kids[..i]), Rows(kids[i]), RowsOf(kids[i + 1..]), key);
  }

  lemma DeleteFromLeaf(t: Tree, lo: int, hi: int, h: nat, page: nat, key: u64)
    requires WellFormed(t, lo, hi, h, page) && t.Leaf?
    requires Shaped(t)
    ensures WellFormed(Delete(t, key), lo, hi, h, page)
    ensures Rows(Delete(t, key)) == WithoutKey(Rows(t), key)
  {
    hide Rank, Has, Keys, CellBytes;
    WithoutBetween(t.rows, key, lo, hi);
    FewerCellBytes(t.rows, key);
    NoCellBytes();
  }

  lemma NoCellBytes()
    ensures CellBytes([]) == 0
  {
  }

  // ---- sizes of rows ----

  lemma {:induction false} CellBytesConcat(a: seq<Row>, b: seq<Row>)
    ensures CellBytes(a + b) == CellBytes(a) + CellBytes(b)
  {
    hide CellSize;
    if b == [] {
      assert a + b == a;
    } else {
      var front, last := b[..|b| - 1], b[|b| - 1];
      assert (a + b)[..|a + b| - 1] == a + front;
      CellBytesConcat(a, front);
    }
  }

  lemma CellBytesOne(row: Row)
    ensures CellBytes([row]) == CellSize(row)
  {
    hide CellSize;
    assert [row][..0] == [];
  }

  lemma CellBytesInserted(rows: seq<Row>, i: nat, row: Row)
    requires i <= |rows|
    ensures CellBytes(Inserted(rows, i, row)) == CellBytes(rows) + CellSize(row)
  {
    hide CellSize, CellBytes;
    var front, back := rows[..i], rows[i..];
    SplitAt(rows, i);
    InsertedParts(rows, i, row);
    CellBytesConcat(front, back);
    CellBytesConcat(front, [row] + back);
    CellBytesConcat([row], back);
    CellBytesOne(row);
  }

  lemma CellBytesRemoved(rows: seq<Row>, i: nat)
    requires i < |rows|
    ensures CellBytes(Removed(rows, i)) + CellSize(rows[i]) == CellBytes(rows)
  {
    hide CellSize, CellBytes;
    var front, back := rows[..i], rows[i + 1..];
    SplitAround(rows, i);
    CellBytesConcat(front, back);
    CellBytesConcat(front, [rows[i]] + back);
    CellBytesConcat([rows[i]], back);
    CellBytesOne(rows[i]);
  }

  lemma FewerCellBytes(rows: seq<Row>, key: u64)
    ensures CellBytes(WithoutKey(rows, key)) <= CellBytes(rows)
    ensures |WithoutKey(rows, key)| <= |rows|
  {
    hide Rank, CellBytes;
    if Has(Keys(rows), key) {
      CellBytesRemoved(rows, Rank(Keys(rows), key));
    }
  }

  // Replacing or adding a row costs at most its own cell.
  lemma CellBytesPut(rows: seq<Row>, row: Row)
    ensures CellBytes(PutRow(rows, row)) <= CellBytes(rows) + CellSize(row)
    ensures |rows| <= |PutRow(rows, row)| <= |rows| + 1
  {
    hide Rank, CellBytes, CellSize;
    FewerCellBytes(rows, row.key);
    CellBytesInserted(WithoutKey(rows, row.key), Rank(Keys(rows), row.key), row);
  }
}
