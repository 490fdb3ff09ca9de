// Facts about rows in key order and about concatenating the rows of kids.
module TreeRows {
  import opened Bytes
  import opened Keyed
  import opened TreeModel

  // Strictly ascending rows with keys in (lo, hi].
  ghost predicate Between(rows: seq<Row>, lo: int, hi: int) {
    && (forall i, j :: 0 <= i < j < |rows| ==> rows[i].key < rows[j].key)
    && (forall i :: 0 <= i < |rows| ==> lo < rows[i].key <= hi)
  }

  ghost predicate AllBelow(rows: seq<Row>, key: int) {
    forall i :: 0 <= i < |rows| ==> rows[i].key < key
  }

  ghost predicate AllAbove(rows: seq<Row>, key: int) {
    forall i :: 0 <= i < |rows| ==> key < rows[i].key
  }

  lemma BetweenKeys(rows: seq<Row>, lo: int, hi: int)
    requires Between(rows, lo, hi)
    ensures Ascending(Keys(rows))
  {
  }

  lemma BetweenConcat(a: seq<Row>, lo: int, m: int, b: seq<Row>, hi: int)
    requires Between(a, lo, m) && Between(b, m, hi) && lo <= m <= hi
    ensures Between(a + b, lo, hi)
  {
  }

  lemma RowsOfConcat(a: seq<Tree>, b: seq<Tree>)
    ensures RowsOf(a + b) == RowsOf(a) + RowsOf(b)
  {
    if a == [] {
      assert a + b == b;
    } else {
      assert (a + b)[1..] == a[1..] + b;
      RowsOfConcat(a[1..], b);
    }
  }

  lemma RowsOfOne(t: Tree)
    ensures RowsOf([t]) == Rows(t)
  {
    assert [t][1..] == [];
    assert RowsOf([t][1..]) == [];
  }

  // The rows of the kids, with kid i singled out.
  lemma RowsAround(kids: seq<Tree>, i: nat)
    requires i < |kids|
    ensures RowsOf(kids) == RowsOf(kids[..i]) + Rows(kids[i]) + RowsOf(kids[i + 1..])
  {
    var a, b := kids[..i], kids[i + 1..];
    assert kids == a + ([kids[i]] + b);
    RowsOfConcat(a, [kids[i]] + b);
    RowsOfConcat([kids[i]], b);
    RowsOfOne(kids[i]);
  }

  lemma RowsReplaced(kids: seq<Tree>, i: nat, kid: Tree)
    requires i < |kids|
    ensures RowsOf(kids[i := kid]) == RowsOf(kids[..i]) + Rows(kid) + RowsOf(kids[i + 1..])
  {
    var kids' := kids[i := kid];
    RowsAround(kids', i);
    assert kids'[..i] == kids[..i] && kids'[i + 1..] == kids[i + 1..];
  }

  lemma RowsOfTwo(kids: seq<Tree>, i: nat, left: Tree, right: Tree)
    requires i < |kids|
    ensures RowsOf(kids[..i] + [left, right] + kids[i + 1..])
         == RowsOf(kids[..i]) + (Rows(left) + Rows(right)) + RowsOf(kids[i + 1..])
  {
    var a, b := kids[..i], kids[i + 1..];
    RowsOfConcat(a, [left, right]);
    RowsOfConcat(a + [left, right], b);
    assert [left, right] == [left] + [right];
    RowsOfConcat([left], [right]);
    RowsOfOne(left);
    RowsOfOne(right);
  }

  // ---- putting and removing rows ----

  lemma RankAmong(a: seq<Row>, y: seq<Row>, b: seq<Row>, key: u64)
    requires AllBelow(a, key) && AllAbove(b, key)
    ensures Rank(Keys(a + y + b), key) == |a| + Rank(Keys(y), key)
    ensures Has(Keys(a + y + b), key) <==> Has(Keys(y), key)
  {
    hide Rank;
    var keys, r := Keys(a + y + b), Rank(Keys(y), key);
    forall j | 0 <= j < |a| + r ensures keys[j] < key {
      if j >= |a| {
        assert keys[j] == Keys(y)[j - |a|];
      }
    }
    if r < |y| {
      assert keys[|a| + r] == Keys(y)[r];
    }
    RankIs(keys, key, |a| + r);
  }

  lemma InsertedAmong<T>(a: seq<T>, y: seq<T>, b: seq<T>, i: nat, x: T)
    requires i <= |y|
    ensures Inserted(a + y + b, |a| + i, x) == a + Inserted(y, i, x) + b
  {
  }

  lemma RemovedAmong<T>(a: seq<T>, y: seq<T>, b: seq<T>, i: nat)
    requires i < |y|
    ensures Removed(a + y + b, |a| + i) == a + Removed(y, i) + b
  {
  }

  // A row whose key lies strictly between two blocks of rows only concerns the middle block.
  lemma PutAmong(a: seq<Row>, y: seq<Row>, b: seq<Row>, row: Row)
    requires AllBelow(a, row.key) && AllAbove(b, row.key)
    ensures PutRow(a + y + b, row) == a + PutRow(y, row) + b
  {
    hide Rank, Keys, Inserted, Removed;
    RankAmong(a, y, b, row.key);
    var i := Rank(Keys(y), row.key);
    if Has(Keys(y), row.key) {
      RemovedAmong(a, y, b, i);
      InsertedAmong(a, Removed(y, i), b, i, row);
    } else {
      InsertedAmong(a, y, b, i, row);
    }
  }

  lemma WithoutAmong(a: seq<Row>, y: seq<Row>, b: seq<Row>, key: u64)
    requires AllBelow(a, key) && AllAbove(b, key)
    ensures WithoutKey(a + y + b, key) == a + WithoutKey(y, key) + b
  {
    hide Rank, Keys, Removed;
    RankAmong(a, y, b, key);
    if Has(Keys(y), key) {
      RemovedAmong(a, y, b, Rank(Keys(y), key));
    }
  }

  lemma PutBetween(rows: seq<Row>, row: Row, lo: int, hi: int)
    requires Between(rows, lo, hi) && lo < row.key <= hi
    ensures Between(PutRow(rows, row), lo, hi)
    ensures PutRow(rows, row) != []
  {
    hide PutRow;
    PutSplits(rows, row);
    var i := Rank(Keys(rows), row.key);
    SplitBetween(rows, row, i, if Has(Keys(rows), row.key) then i + 1 else i, lo, hi);
  }

  lemma SplitBetween(rows: seq<Row>, row: Row, i: nat, n: nat, lo: int, hi: int)
    requires Between(rows, lo, hi) && lo < row.key <= hi && i <= n <= |rows|
    requires i > 0 ==> rows[i - 1].key < row.key
    requires n < |rows| ==> row.key < rows[n].key
    ensures Between(rows[..i] + [row] + rows[n..], lo, hi)
  {
    var front, back := rows[..i], rows[n..];
    assert Between(front, lo, row.key - 1);
    assert Between([row], row.key - 1, row.key);
    assert Between(back, row.key, hi);
    BetweenConcat(front, lo, row.key - 1, [row], row.key);
    BetweenConcat(front + [row], lo, row.key, back, hi);
  }

  lemma PutSplits(rows: seq<Row>, row: Row)
    ensures var i := Rank(Keys(rows), row.key);
            var n := if Has(Keys(rows), row.key) then i + 1 else i;
            PutRow(rows, row) == rows[..i] + [row] + rows[n..]
  {
    hide Rank, Keys;
  }

  lemma WithoutBetween(rows: seq<Row>, key: u64, lo: int, hi: int)
    requires Between(rows, lo, hi)
    ensures Between(WithoutKey(rows, key), lo, hi)
  {
    hide Rank, Keys;
  }

  // A row with the greatest key goes to the end.
  lemma PutHasRows(rows: seq<Row>, row: Row)
    ensures PutRow(rows, row) != []
  {
    hide Rank, Keys;
  }

  lemma PutAtEnd(rows: seq<Row>, row: Row)
    requires AllBelow(rows, row.key)
    ensures PutRow(rows, row) == rows + [row]
  {
    RankIs(Keys(rows), row.key, |rows|);
  }

  // ---- the map behind ascending rows ----

  // The map holds exactly the given rows.
  ghost predicate Holds(m: map<u64, Payload>, rows: seq<Row>) {
    && (forall r :: r in rows ==> r.key in m && m[r.key] == r.value)
    && (forall k :: k in m ==> exists r :: r in rows && r.key == k)
  }

  lemma {:induction false} MapOfHolds(rows: seq<Row>)
    requires Ascending(Keys(rows))
    ensures Holds(MapOf(rows), rows)
  {
    hide Keys, Ascending, Holds;
    if rows == [] {
      assert Holds(map[], []) by { NothingHeld(); }
    } else {
      var front, last := rows[..|rows| - 1], rows[|rows| - 1];
      FrontOfAscending(rows);
      MapOfHolds(front);
      assert rows == front + [last];
      HoldsOneMore(MapOf(front), front, last);
    }
  }

  lemma NothingHeld()
    ensures Holds(map[], [])
  {
  }

  lemma FrontOfAscending(rows: seq<Row>)
    requires Ascending(Keys(rows)) && rows != []
    ensures var front := rows[..|rows| - 1];
            Ascending(Keys(front)) && forall r :: r in front ==> r.key != rows[|rows| - 1].key
  {
    var front := rows[..|rows| - 1];
    forall i, j | 0 <= i < j < |front| ensures Keys(front)[i] < Keys(front)[j] {
      assert Keys(rows)[i] < Keys(rows)[j];
    }
    forall r | r in front ensures r.key != rows[|rows| - 1].key {
      var i :| 0 <= i < |front| && front[i] == r;
      assert Keys(rows)[i] < Keys(rows)[|rows| - 1];
    }
  }

  lemma HoldsOneMore(m: map<u64, Payload>, rows: seq<Row>, last: Row)
    requires Holds(m, rows)
    requires forall r :: r in rows ==> r.key != last.key
    ensures Holds(m[last.key := last.value], rows + [last])
  {
    var m', more := m[last.key := last.value], rows + [last];
    forall k | k in m' ensures exists r :: r in more && r.key == k {
      if k != last.key {
        var r :| r in rows && r.key == k;
        assert r in more;
      } else {
        assert more[|rows|] == last;
        assert last in more;
      }
    }
  }

  lemma HoldsUnique(m: map<u64, Payload>, m': map<u64, Payload>, rows: seq<Row>)
    requires Holds(m, rows) && Holds(m', rows)
    ensures m == m'
  {
    forall k: u64 ensures k in m ==> k in m' && m'[k] == m[k] ensures k in m' ==> k in m {
      if k in m {
        var r :| r in rows && r.key == k;
      }
    }
  }

  // Reading a map off ascending rows is what binary search finds.
  lemma FoundIsMapped(rows: seq<Row>, key: u64)
    requires Ascending(Keys(rows))
    ensures Has(Keys(rows), key) <==> key in MapOf(rows)
    ensures Has(Keys(rows), key) ==> MapOf(rows)[key] == rows[Rank(Keys(rows), key)].value
  {
    hide Rank;
    MapOfHolds(rows);
    HasIff(Keys(rows), key);
    if Has(Keys(rows), key) {
      assert rows[Rank(Keys(rows), key)] in rows;
    }
    if key in MapOf(rows) {
      var r :| r in rows && r.key == key;
      var i :| 0 <= i < |rows| && rows[i] == r;
      assert Keys(rows)[i] in Keys(rows);
    }
  }

  lemma WithoutMembers(rows: seq<Row>, key: u64, r: Row)
    requires Ascending(Keys(rows))
    ensures r in WithoutKey(rows, key) <==> r in rows && r.key != key
  {
    hide Rank;
    var rest, i, hit := WithoutKey(rows, key), Rank(Keys(rows), key), Has(Keys(rows), key);
    HasIff(Keys(rows), key);
    if r in rows {
      var p :| 0 <= p < |rows| && rows[p] == r;
      assert Keys(rows)[p] == r.key;
      if r.key != key {
        assert rest[if p < i || !hit then p else p - 1] == r;
      } else {
        RankIs(Keys(rows), key, p);
      }
    }
    if r in rest {
      var p :| 0 <= p < |rest| && rest[p] == r;
      var q := if p < i || !hit then p else p + 1;
      assert rows[q] == r && Keys(rows)[q] == r.key;
    }
  }

  lemma InsertedMembers<T>(s: seq<T>, i: nat, x: T, y: T)
    requires i <= |s|
    ensures y in Inserted(s, i, x) <==> y == x || y in s
  {
    assert Inserted(s, i, x)[i] == x;
    if y in s {
      var p :| 0 <= p < |s| && s[p] == y;
      assert Inserted(s, i, x)[if p < i then p else p + 1] == y;
    }
  }

  lemma PutMembers(rows: seq<Row>, row: Row, r: Row)
    requires Ascending(Keys(rows))
    ensures r in PutRow(rows, row) <==> r == row || (r in rows && r.key != row.key)
  {
    hide Rank, Inserted;
    WithoutMembers(rows, row.key, r);
    InsertedMembers(WithoutKey(rows, row.key), Rank(Keys(rows), row.key), row, r);
  }

  lemma MapOfPut(rows: seq<Row>, row: Row, lo: int, hi: int)
    requires Between(rows, lo, hi) && lo < row.key <= hi
    ensures MapOf(PutRow(rows, row)) == MapOf(rows)[row.key := row.value]
  {
    hide MapOf, PutRow, Keys;
    var put, m := PutRow(rows, row), MapOf(rows)[row.key := row.value];
    BetweenKeys(rows, lo, hi);
    PutBetween(rows, row, lo, hi);
    BetweenKeys(put, lo, hi);
    MapOfHolds(rows);
    forall r: Row ensures r in put <==> r == row || (r in rows && r.key != row.key) {
      PutMembers(rows, row, r);
    }
    assert Holds(m, put);
    MapOfHolds(put);
    HoldsUnique(MapOf(put), m, put);
  }

  lemma MapOfWithout(rows: seq<Row>, key: u64, lo: int, hi: int)
    requires Between(rows, lo, hi)
    ensures MapOf(WithoutKey(rows, key)) == MapOf(rows) - {key}
  {
    hide MapOf, WithoutKey, Keys;
    var rest, m := WithoutKey(rows, key), MapOf(rows) - {key};
    BetweenKeys(rows, lo, hi);
    WithoutBetween(rows, key, lo, hi);
    BetweenKeys(rest, lo, hi);
    MapOfHolds(rows);
    forall r: Row ensures r in rest <==> r in rows && r.key != key {
      WithoutMembers(rows, key, r);
    }
    assert Holds(m, rest);
    MapOfHolds(rest);
    HoldsUnique(MapOf(rest), m, rest);
  }
}
