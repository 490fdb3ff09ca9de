// When refilling fresh pages loses no cell.
module TreeSizes {
  import opened Bytes
  import opened Keyed
  import opened TreeModel
  import opened TreeRows
  import opened TreeInvariant
  import V = Varint

  // ---- dividing by count ----

  function Sum(ws: seq<nat>): nat {
    if ws == [] then 0 else Sum(ws[..|ws| - 1]) + ws[|ws| - 1]
  }

  lemma {:induction false} SumConcat(a: seq<nat>, b: seq<nat>)
    ensures Sum(a + b) == Sum(a) + Sum(b)
  {
    if b == [] {
      assert a + b == a;
    } else {
      var front := b[..|b| - 1];
      assert (a + b)[..|a + b| - 1] == a + front;
      SumConcat(a, front);
    }
  }

  ghost predicate AllWithin(ws: seq<nat>, s: nat, S: nat) {
    forall i :: 0 <= i < |ws| ==> s <= ws[i] <= S
  }

  lemma {:induction false} SumWithin(ws: seq<nat>, s: nat, S: nat)
    requires AllWithin(ws, s, S)
    ensures s * |ws| <= Sum(ws) <= S * |ws|
  {
    if ws != [] {
      var n := |ws| - 1;
      SumWithin(ws[..n], s, S);
      assert s * (n + 1) == s * n + s && S * (n + 1) == S * n + S;
    }
  }

  // The least footprint s, the greatest footprint S and the capacity C are close enough.
  predicate RatioHolds(s: nat, S: nat, C: int) {
    s > 0 && s * (C - S) >= S * S
  }

  // Footprints in [s, S] that overflow a capacity C by at most one cell can be divided
  // by count into two halves that fit, when s * (C - S) >= S * S.
  lemma CountHalvesFit(ws: seq<nat>, s: nat, S: nat, C: int)
    requires AllWithin(ws, s, S) && RatioHolds(s, S, C)
    requires Sum(ws) <= C + S
    ensures Sum(ws[..|ws| / 2]) <= C
    ensures Sum(ws[|ws| / 2..]) <= C
  {
    hide Sum, AllWithin, RatioHolds;
    var m := |ws| / 2;
    SplitAt(ws, m);
    SumConcat(ws[..m], ws[m..]);
    WithinParts(ws, m, s, S);
    SumWithin(ws[..m], s, S);
    SumWithin(ws[m..], s, S);
    HalfBounds(m, |ws| - m, Sum(ws[..m]), Sum(ws[m..]), s, S, C);
  }

  lemma WithinParts(ws: seq<nat>, m: nat, s: nat, S: nat)
    requires AllWithin(ws, s, S) && m <= |ws|
    ensures AllWithin(ws[..m], s, S) && AllWithin(ws[m..], s, S)
  {
  }

  lemma HalfBounds(m: nat, n: nat, a: nat, b: nat, s: nat, S: nat, C: int)
    requires m <= n <= m + 1
    requires s * m <= a <= S * m && s * n <= b <= S * n
    requires a + b <= C + S && RatioHolds(s, S, C)
    ensures a <= C && b <= C
  {
    if m * s >= S {
      MulMonotone(s, m, n);
    } else {
      SmallHalves(m, s, S, C);
      MulMonotone(S, n, m + 1);
    }
  }

  lemma MulMonotone(a: nat, x: nat, y: nat)
    requires x <= y
    ensures a * x <= a * y
  {
  }

  lemma SmallHalves(m: nat, s: nat, S: nat, C: int)
    requires m * s < S && RatioHolds(s, S, C)
    ensures S * (m + 1) <= C && S * m <= C
  {
    assert s * (S * m) == (m * s) * S;
    MulMonotone(S, m * s, S);
    CancelFactor(s, S * m, C - S);
    assert S * (m + 1) == S * m + S;
  }

  function Times(x: int, y: int): int {
    x * y
  }

  lemma CancelFactor(s: nat, x: int, y: int)
    requires s > 0 && Times(s, x) <= Times(s, y)
    ensures x <= y
  {
    hide Times;
    if x > y {
      MoreFactor(s, x, y);
    }
  }

  lemma MoreFactor(s: nat, x: int, y: int)
    requires s > 0 && x > y
    ensures Times(s, x) > Times(s, y)
  {
    MulMonotone(s, 1, x - y);
    assert s * (x - y) == s * x - s * y;
  }

  // ---- leaf pages ----

  function Footprint(row: Row): nat {
    CellSize(row) + 2
  }

  function Footprints(rows: seq<Row>): (ws: seq<nat>)
    ensures |ws| == |rows|
    ensures forall i :: 0 <= i < |ws| ==> ws[i] == Footprint(rows[i])
  {
    seq(|rows|, i requires 0 <= i < |rows| => Footprint(rows[i]))
  }

  lemma {:induction false} FootprintSum(rows: seq<Row>)
    ensures Sum(Footprints(rows)) == CellBytes(rows) + 2 * |rows|
  {
    hide CellSize;
    if rows != [] {
      assert Footprints(rows)[..|rows| - 1] == Footprints(rows[..|rows| - 1]);
      FootprintSum(rows[..|rows| - 1]);
    }
  }

  // The rows fit an empty leaf page together.
  predicate FitsAlone(rows: seq<Row>, page: nat) {
    CellBytes(rows) + 2 * |rows| <= LeafCapacity(page)
  }

  predicate HalvesFit(rows: seq<Row>, row: Row, page: nat) {
    var all := Joint(rows, row);
    FitsAlone(all[..|all| / 2], page) && FitsAlone(all[|all| / 2..], page)
  }

  // A full leaf whose footprints all lie in [s, S] is divided by count without losing a
  // row when s * (C - S) >= S * S.
  lemma RatioMakesRoom(rows: seq<Row>, used: nat, row: Row, page: nat, s: nat, S: nat)
    requires CellBytes(rows) <= used && used + 2 * |rows| <= LeafCapacity(page)
    requires RatioHolds(s, S, LeafCapacity(page))
    requires s <= Footprint(row) <= S && forall i :: 0 <= i < |rows| ==> s <= Footprint(rows[i]) <= S
    ensures HalvesFit(rows, row, page)
  {
    hide CellBytes, CellSize, Sum, Footprints, Inserted, Above, Keys, RatioHolds, AllWithin, LeafCapacity, Footprint,
         FitsAlone;
    var i := Above(Keys(rows), row.key);
    var all := Joint(rows, row);
    CellBytesInserted(rows, i, row);
    FootprintIs(row);
    JointFootprints(rows, i, row, s, S);
    FootprintSum(all);
    CountHalvesFit(Footprints(all), s, S, LeafCapacity(page));
    HalvesFromSums(all, page);
  }

  lemma HalvesFromSums(all: seq<Row>, page: nat)
    requires Sum(Footprints(all)[..|all| / 2]) <= LeafCapacity(page)
    requires Sum(Footprints(all)[|all| / 2..]) <= LeafCapacity(page)
    ensures FitsAlone(all[..|all| / 2], page) && FitsAlone(all[|all| / 2..], page)
  {
    hide Sum, CellBytes, Footprints;
    FootprintHalves(all, |all| / 2);
  }

  lemma FootprintIs(row: Row)
    ensures Footprint(row) == CellSize(row) + 2
  {
  }

  lemma JointFootprints(rows: seq<Row>, i: nat, row: Row, s: nat, S: nat)
    requires i <= |rows|
    requires s <= Footprint(row) <= S && forall i :: 0 <= i < |rows| ==> s <= Footprint(rows[i]) <= S
    ensures AllWithin(Footprints(Inserted(rows, i, row)), s, S)
  {
    hide Footprint;
  }

  lemma FootprintHalves(rows: seq<Row>, m: nat)
    requires m <= |rows|
    ensures Sum(Footprints(rows)[..m]) == CellBytes(rows[..m]) + 2 * m
    ensures Sum(Footprints(rows)[m..]) == CellBytes(rows[m..]) + 2 * (|rows| - m)
  {
    hide Footprint;
    assert Footprints(rows[..m]) == Footprints(rows)[..m];
    assert Footprints(rows[m..]) == Footprints(rows)[m..];
    FootprintSum(rows[..m]);
    FootprintSum(rows[m..]);
  }

  // Ascending rows that fit together are all kept, without dead space.
  lemma {:induction false} FilledKeepsAll(rows: seq<Row>, page: nat)
    requires Ascending(Keys(rows)) && FitsAlone(rows, page)
    ensures Filled(rows, page) == Leaf(rows, CellBytes(rows))
  {
    hide CellSize, PutRow;
    if rows != [] {
      var front, last := rows[..|rows| - 1], rows[|rows| - 1];
      FrontOfAscending(rows);
      FilledKeepsAll(front, page);
      LastIsGreatest(rows);
      PutAtEnd(front, last);
      assert front + [last] == rows;
    }
  }

  lemma LastIsGreatest(rows: seq<Row>)
    requires Ascending(Keys(rows)) && rows != []
    ensures AllBelow(rows[..|rows| - 1], rows[|rows| - 1].key)
  {
    forall i | 0 <= i < |rows| - 1 ensures rows[i].key < rows[|rows| - 1].key {
      assert Keys(rows)[i] < Keys(rows)[|rows| - 1];
    }
  }

  lemma LastOfThree(a: seq<Row>, b: seq<Row>)
    requires b != []
    ensures (a + b)[..|a + b| - 1] == a + b[..|b| - 1] && (a + b)[|a + b| - 1] == b[|b| - 1]
  {
  }

  lemma TwoAtEnd(a: seq<Row>, prior: Row, newer: Row)
    requires Ascending(Keys(a + [newer] + [])) && prior.key == newer.key
    ensures a + [prior, newer] + [] == (a + [prior]) + [newer] && a + [newer] + [] == a + [newer]
    ensures ((a + [prior]) + [newer])[..|a| + 1] == a + [prior]
    ensures Keys(a + [prior]) == Keys(a + [newer]) && Ascending(Keys(a + [prior]))
  {
    assert a + [newer] + [] == a + [newer];
  }

  lemma PutLast(a: seq<Row>, prior: Row, newer: Row)
    requires Ascending(Keys(a + [prior])) && prior.key == newer.key
    ensures PutRow(a + [prior], newer) == a + [newer]
  {
    var rows := a + [prior];
    assert Keys(rows)[|a|] == newer.key;
    RankIs(Keys(rows), newer.key, |a|);
    assert Removed(rows, |a|) == a;
  }

  // ---- interior pages ----

  function SeparatorFootprints(seps: seq<u64>): (ws: seq<nat>)
    ensures |ws| == |seps|
    ensures forall i :: 0 <= i < |ws| ==> ws[i] == 4 + |V.Encoding(seps[i])| + 2
  {
    seq(|seps|, i requires 0 <= i < |seps| => 4 + |V.Encoding(seps[i])| + 2)
  }

  lemma {:induction false} SeparatorSum(seps: seq<u64>)
    ensures Sum(SeparatorFootprints(seps)) == SeparatorBytes(seps) + 2 * |seps|
  {
    if seps != [] {
      assert SeparatorFootprints(seps)[..|seps| - 1] == SeparatorFootprints(seps[..|seps| - 1]);
      SeparatorSum(seps[..|seps| - 1]);
    }
  }

  lemma SeparatorSumInserted(seps: seq<u64>, i: nat, sep: u64)
    requires i <= |seps|
    ensures Sum(SeparatorFootprints(Inserted(seps, i, sep)))
         == SeparatorBytes(seps) + 2 * |seps| + 4 + |V.Encoding(sep)| + 2
  {
    hide *;
    SeparatorSum(seps);
    InsertedFootprints(seps, i, sep);
    var w: nat := 4 + |V.Encoding(sep)| + 2;
    SumInserted(SeparatorFootprints(seps), i, w);
  }

  lemma InsertedFootprints(seps: seq<u64>, i: nat, sep: u64)
    requires i <= |seps|
    ensures SeparatorFootprints(Inserted<u64>(seps, i, sep))
         == Inserted<nat>(SeparatorFootprints(seps), i, 4 + |V.Encoding(sep)| + 2)
  {
    hide V.Encoding;
  }

  lemma SumInserted(ws: seq<nat>, i: nat, w: nat)
    requires i <= |ws|
    ensures Sum(Inserted<nat>(ws, i, w)) == Sum(ws) + w
  {
    hide Sum;
    SplitAt(ws, i);
    InsertedParts(ws, i, w);
    SumConcat(ws[..i], ws[i..]);
    SumConcat(ws[..i], [w] + ws[i..]);
    SumConcat([w], ws[i..]);
    SumOne(w);
  }

  lemma SumOne(w: nat)
    ensures Sum([w]) == w
  {
    assert [w][..0] == [];
  }

  predicate SepsFitAlone(seps: seq<u64>, page: nat) {
    SeparatorBytes(seps) + 2 * |seps| <= NodeCapacity(page)
  }

  // An interior page divided around its middle entry never loses an entry, at any page size
  // of at least 100 bytes.
  lemma InteriorHalvesFit(seps: seq<u64>, i: nat, sep: u64, page: nat)
    requires SepsFitAlone(seps, page) && i <= |seps| && page >= 100
    ensures var seps' := Inserted(seps, i, sep); var mid := |seps'| / 2;
            SepsFitAlone(seps'[..mid], page) && SepsFitAlone(seps'[mid + 1..], page)
  {
    hide Sum, SeparatorBytes, V.Encoding;
    var seps' := Inserted(seps, i, sep);
    var mid := |seps'| / 2;
    var ws := SeparatorFootprints(seps');
    SeparatorSumInserted(seps, i, sep);
    CountHalvesFit(ws, 7, 15, NodeCapacity(page));
    assert SeparatorFootprints(seps'[..mid]) == ws[..mid];
    assert SeparatorFootprints(seps'[mid + 1..]) == ws[mid + 1..];
    SeparatorSum(seps'[..mid]);
    SeparatorSum(seps'[mid + 1..]);
    assert ws[mid..] == [ws[mid]] + ws[mid + 1..];
    SumConcat([ws[mid]], ws[mid + 1..]);
  }

  lemma {:induction false} FilledEntriesKeepsAll<T>(kids: seq<T>, seps: seq<u64>, right: T, page: nat)
    requires |kids| == |seps| && NotDescending(seps) && SepsFitAlone(seps, page)
    ensures FilledEntries(kids, seps, right, page) == (kids + [right], seps)
  {
    hide V.Encoding;
    if seps == [] {
      assert kids + [right] == [right];
    } else {
      var n := |seps| - 1;
      FilledEntriesKeepsAll(kids[..n], seps[..n], right, page);
      AboveIs(seps[..n], seps[n], n);
      InsertedAtEnd(seps[..n], seps[n]);
      InsertedBeforeTail(kids[..n], kids[n], right);
      FrontAndLast(seps);
      FrontAndLast(kids);
    }
  }

  lemma FilledNodeKeepsAll(kids: seq<Tree>, seps: seq<u64>, right: Tree, page: nat)
    requires |kids| == |seps| && NotDescending(seps) && SepsFitAlone(seps, page)
    ensures FilledNode(kids, seps, right, page) == Node(kids + [right], seps)
  {
    hide FilledEntries;
    FilledEntriesKeepsAll(kids, seps, right, page);
  }

  // ---- refilling a page ----

  // Refilling keeps keys ascending, whatever it is given.
  lemma {:induction false} FilledAscends(rows: seq<Row>, page: nat)
    ensures Between(Filled(rows, page).rows, -1, 0x1_0000_0000_0000_0000)
    ensures Ascending(Keys(Filled(rows, page).rows))
  {
    hide CellSize, PutRow, LeafFits, Keys;
    if rows != [] {
      FilledAscends(rows[..|rows| - 1], page);
      PutBetween(Filled(rows[..|rows| - 1], page).rows, rows[|rows| - 1], -1, 0x1_0000_0000_0000_0000);
    }
    BetweenKeys(Filled(rows, page).rows, -1, 0x1_0000_0000_0000_0000);
  }

  lemma {:induction false} FilledFits(rows: seq<Row>, page: nat)
    requires page >= MIN_PAGE
    ensures var t := Filled(rows, page); t.used + 2 * |t.rows| <= LeafCapacity(page)
  {
    hide CellSize, PutRow, Keys, CellBytes;
    if rows != [] {
      FilledFits(rows[..|rows| - 1], page);
      CellBytesPut(Filled(rows[..|rows| - 1], page).rows, rows[|rows| - 1]);
    }
  }

  // Something is kept of what a page is refilled with.
  lemma {:induction false} FilledSome(rows: seq<Row>, page: nat)
    requires rows != [] && page >= MIN_PAGE
    ensures Filled(rows, page).rows != []
  {
    hide PutRow, CellSize;
    var front := rows[..|rows| - 1];
    PutHasRows(Filled(front, page).rows, rows[|rows| - 1]);
    if front == [] {
      CellSizeBound(rows[0]);
    } else {
      FilledSome(front, page);
    }
  }

  lemma {:induction false} FilledMembers(rows: seq<Row>, page: nat, r: Row)
    requires r in Filled(rows, page).rows
    ensures r in rows
  {
    hide CellSize, Keys, Rank, LeafFits, PutRow;
    if rows != [] {
      var n := |rows| - 1;
      var kept := Filled(rows[..n], page).rows;
      if r in kept {
        FilledMembers(rows[..n], page, r);
      } else {
        PutMembersWeak(kept, rows[n], r);
      }
    }
  }

  lemma PutMembersWeak(rows: seq<Row>, r: Row, x: Row)
    requires x in PutRow(rows, r)
    ensures x == r || x in rows
  {
    hide Keys, Rank;
  }

  lemma {:induction false} FilledLength(rows: seq<Row>, page: nat)
    ensures |Filled(rows, page).rows| <= |rows|
  {
    hide CellSize, LeafFits, Keys, PutRow;
    if rows != [] {
      FilledLength(rows[..|rows| - 1], page);
      CellBytesPut(Filled(rows[..|rows| - 1], page).rows, rows[|rows| - 1]);
    }
  }

  // The cells of a refilled page, dead ones included, take at least the bytes of its rows.
  lemma {:induction false} FilledCarries(rows: seq<Row>, page: nat)
    ensures var t := Filled(rows, page); CellBytes(t.rows) <= t.used
  {
    hide CellSize, LeafFits, Keys, PutRow, CellBytes;
    if rows == [] {
      NoCellBytes();
    } else {
      FilledCarries(rows[..|rows| - 1], page);
      CellBytesPut(Filled(rows[..|rows| - 1], page).rows, rows[|rows| - 1]);
    }
  }

  // Refilling keeps all of some ascending rows exactly when they fit together.
  lemma FilledExact(rows: seq<Row>, page: nat)
    requires Ascending(Keys(rows)) && page >= MIN_PAGE
    ensures Filled(rows, page).rows == rows <==> FitsAlone(rows, page)
  {
    hide Filled, Ascending, CellBytes;
    if FitsAlone(rows, page) {
      FilledKeepsAll(rows, page);
    } else {
      FilledCarries(rows, page);
      FilledFits(rows, page);
    }
  }

  // ---- refilling a page with an old and a new row of one key ----

  // A page refilled with a + [prior, newer] + b ends up with a + [newer] + b: the cells fit, where
  // the pointer that prior gives up is free again for what follows; or the new row is the old one
  // and is left out for want of space.
  predicate PairFits(a: seq<Row>, prior: Row, newer: Row, b: seq<Row>, page: nat) {
    var all := a + [prior, newer] + b;
    || CellBytes(all) + 2 * |all| <= LeafCapacity(page) + (if b == [] then 0 else 2)
    || (prior == newer && !FitsAlone(a + [prior, newer], page))
  }

  lemma PartsFitAlone(rows: seq<Row>, i: nat, j: nat, page: nat)
    requires i <= j <= |rows| && FitsAlone(rows, page)
    ensures FitsAlone(rows[i..j], page)
  {
    hide CellBytes;
    assert rows == rows[..i] + (rows[i..j] + rows[j..]);
    CellBytesConcat(rows[..i], rows[i..j] + rows[j..]);
    CellBytesConcat(rows[i..j], rows[j..]);
  }

  // Rows that follow a page's rows in key order and fit behind them are all kept.
  lemma {:induction false} FilledOnward(p: seq<Row>, q: seq<Row>, used: nat, b: seq<Row>, page: nat)
    requires Filled(p, page) == Leaf(q, used) && Ascending(Keys(q + b))
    requires b == [] || used + 2 * |q| + CellBytes(b) + 2 * |b| <= LeafCapacity(page)
    ensures Filled(p + b, page) == Leaf(q + b, used + CellBytes(b))
  {
    hide CellSize, PutRow, Ascending, Keys;
    if b == [] {
      assert p + b == p && q + b == q;
    } else {
      var front, last := b[..|b| - 1], b[|b| - 1];
      LastOfThree(q, b);
      LastOfThree(p, b);
      FrontOfAscending(q + b);
      LastIsGreatest(q + b);
      FilledOnward(p, q, used, front, page);
      PutAtEnd(q + front, last);
      FrontAndLast(q + b);
    }
  }

  // Dead space stays dead while a page is filled on.
  lemma {:induction false} FilledDead(p: seq<Row>, b: seq<Row>, page: nat)
    ensures var t, u := Filled(p, page), Filled(p + b, page);
            u.used - CellBytes(u.rows) >= t.used - CellBytes(t.rows)
  {
    hide CellSize, LeafFits, Keys, PutRow, CellBytes;
    if b == [] {
      assert p + b == p;
    } else {
      LastOfThree(p, b);
      FilledDead(p, b[..|b| - 1], page);
      CellBytesPut(Filled(p + b[..|b| - 1], page).rows, b[|b| - 1]);
    }
  }

  // The front of the page: the new row takes the old one's place, or does not fit and is left out.
  lemma PairFront(a: seq<Row>, prior: Row, newer: Row, page: nat)
    requires Ascending(Keys(a + [newer])) && prior.key == newer.key && FitsAlone(a + [prior], page)
    ensures Filled(a + [prior, newer], page)
         == if FitsAlone(a + [prior, newer], page) then Leaf(a + [newer], CellBytes(a + [prior, newer]))
            else Leaf(a + [prior], CellBytes(a + [prior]))
    ensures CellBytes(a + [prior, newer]) == CellBytes(a + [newer]) + CellSize(prior)
  {
    hide CellSize, PutRow, Keys, Ascending;
    assert a + [newer] + [] == a + [newer];
    TwoAtEnd(a, prior, newer);
    PutLast(a, prior, newer);
    FilledKeepsAll(a + [prior], page);
    assert a + [prior, newer] == (a + [prior]) + [newer];
    CellBytesConcat(a, [prior]);
    CellBytesConcat(a + [prior], [newer]);
    CellBytesConcat(a, [newer]);
    CellBytesOne(prior);
    CellBytesOne(newer);
  }

  lemma PairBytes(a: seq<Row>, prior: Row, newer: Row, b: seq<Row>)
    ensures CellBytes(a + [prior, newer] + b) == CellBytes(a + [prior, newer]) + CellBytes(b)
    ensures CellBytes(a + [newer] + b) == CellBytes(a + [newer]) + CellBytes(b)
    ensures CellBytes(a + [prior] + b) == CellBytes(a + [prior]) + CellBytes(b)
    ensures b != [] ==> CellBytes(b) >= 6
  {
    hide CellSize, CellBytes;
    CellBytesConcat(a + [prior, newer], b);
    CellBytesConcat(a + [newer], b);
    CellBytesConcat(a + [prior], b);
    if b != [] {
      FrontAndLast(b);
      CellBytesConcat(b[..|b| - 1], [b[|b| - 1]]);
      CellBytesOne(b[|b| - 1]);
      CellSizeBound(b[|b| - 1]);
    }
  }

  // Old and new row of a key on one page, the rows without the new one fitting: exactly when the
  // page comes out as the upsert asks.
  lemma FilledPair(a: seq<Row>, prior: Row, newer: Row, b: seq<Row>, page: nat)
    requires Ascending(Keys(a + [newer] + b)) && prior.key == newer.key && page >= MIN_PAGE
    requires FitsAlone(a + [prior] + b, page)
    ensures Filled(a + [prior, newer] + b, page).rows == a + [newer] + b <==> PairFits(a, prior, newer, b, page)
  {
    hide CellSize, CellBytes, Filled, Ascending, Keys, LeafCapacity;
    PairPrefixes(a, prior, newer, b);
    PartsFitAlone(a + [prior] + b, 0, |a| + 1, page);
    PairFront(a, prior, newer, page);
    PairBytes(a, prior, newer, b);
    if FitsAlone(a + [prior, newer], page) {
      if PairFits(a, prior, newer, b, page) {
        FilledOnward(a + [prior, newer], a + [newer], CellBytes(a + [prior, newer]), b, page);
      } else {
        assert a + [prior, newer] + [] == a + [prior, newer];
        FilledDead(a + [prior, newer], b, page);
        FilledFits(a + [prior, newer] + b, page);
      }
    } else {
      FilledOnward(a + [prior, newer], a + [prior], CellBytes(a + [prior]), b, page);
      assert (a + [prior] + b)[|a|] == prior && (a + [newer] + b)[|a|] == newer;
    }
  }

  lemma PairPrefixes(a: seq<Row>, prior: Row, newer: Row, b: seq<Row>)
    requires Ascending(Keys(a + [newer] + b)) && prior.key == newer.key
    ensures (a + [prior] + b)[0..|a| + 1] == a + [prior]
    ensures Ascending(Keys(a + [newer])) && Ascending(Keys(a + [prior] + b))
  {
    assert Keys(a + [prior] + b) == Keys(a + [newer] + b);
    AscendingSlice(Keys(a + [newer] + b), 0, |a| + 1);
    assert Keys(a + [newer]) == Keys(a + [newer] + b)[0..|a| + 1];
  }
}
