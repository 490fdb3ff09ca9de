// Searching and scanning a stored tree (search, scan, scan_with and scan_with_ref of src/btree/engine.rs).
module BTreeRead {
  import opened Wrappers
  import opened Bytes
  import opened Cells
  import opened Keyed
  import opened Pages
  import opened LeafPages
  import opened Paging
  import opened OverflowChains
  import opened TreeModel
  import opened TreeRows
  import opened TreeInvariant
  import opened StoredTrees
  import opened LeafNodes
  import opened InteriorNodes
  import opened NodeSteps
  import V = Varint

  // Enough order to search: the keys of each leaf ascend.
  ghost predicate Searchable(t: Tree) {
    match t
    case Leaf(rows, used) => Ascending(Keys(rows)) && (rows == [] ==> used == 0)
    case Node(kids, seps) => |kids| == |seps| + 1 && forall i :: 0 <= i < |kids| ==> Searchable(kids[i])
  }

  lemma {:induction false} WellFormedIsSearchable(t: Tree, lo: int, hi: int, h: nat, page: nat)
    requires WellFormed(t, lo, hi, h, page)
    ensures Searchable(t)
    decreases h
  {
    hide CellBytes, SeparatorBytes;
    match t
    case Leaf(rows, _) => BetweenKeys(rows, lo, hi);
    case Node(kids, seps) =>
      forall i | 0 <= i < |kids| ensures Searchable(kids[i]) {
        WellFormedIsSearchable(kids[i], Lower(seps, lo, i), Upper(seps, hi, i), h - 1, page);
      }
  }

  lemma {:induction false} SearchableIsShaped(t: Tree)
    requires Searchable(t)
    ensures Shaped(t)
  {
    match t
    case Leaf(_, _) =>
    case Node(kids, _) =>
      forall i | 0 <= i < |kids| ensures Shaped(kids[i]) {
        SearchableIsShaped(kids[i]);
      }
  }

  // A cell and the overflow behind it make up the row.
  lemma RowAssembled(pages: PageMap, r: Row)
    requires RowSpilled(pages, r)
    ensures CellOf(r).rowId == r.key
    ensures match CellOf(r).overflow
            case None => CellOf(r).payload == r.value
            case Some(first) =>
              && first == FirstPage(r.spill) && first > 0
              && CellOf(r).payload + Flatten(r.spill.chunks) == r.value
  {
    hide OverflowPage, Flatten;
    ChainParts(pages, r.spill);
    SplitAt(r.value, InlineLength(r));
  }

  // ---- search ----

  // The page's payload and overflow pointer of a key, if it is there.
  method LeafStep(b: seq<byte>, id: PageId, key: u64, ghost rows: seq<Row>, ghost used: nat)
    returns (found: Option<(seq<byte>, Option<PageId>)>)
    requires LeafImage(b, id, rows, used) && Ascending(Keys(rows))
    ensures found == if Has(Keys(rows), key) then
                       var c := CellOf(rows[Rank(Keys(rows), key)]); Some((c.payload, c.overflow))
                     else None
  {
    hide LeafPage, Ascending, Keys, RowIds, Rank, Has, ReadLeafCell;
    RowKeys(rows);
    var search := FindLeafCellIndexByKey(b, id, key, CellsOf(rows), ContentAt(|b|, used));
    match search.value {
      case At(idx) =>
        LeafCellRead(b, id, CellsOf(rows), ContentAt(|b|, used), idx);
        var cell := ReadLeafCell(b, id, idx).value;
        found := Some((cell.payload, cell.overflow));
      case Absent(_) =>
        found := None;
    }
  }

  lemma LeafView(pages: PageMap, s: Stored, pageSize: nat)
    requires s.StoredLeaf? && OnPages(pages, s, pageSize)
    ensures s.id in pages && LeafImage(pages[s.id], s.id, s.rows, s.used)
  {
    hide LeafPage;
  }

  lemma NodeView(pages: PageMap, s: Stored, pageSize: nat)
    requires s.StoredNode? && OnPages(pages, s, pageSize)
    ensures s.id in pages && NodeImage(pages[s.id], s.id, s.kids, s.seps) && |s.kids| == |s.seps| + 1
    ensures forall i :: 0 <= i < |s.kids| ==> OnPages(pages, s.kids[i], pageSize)
  {
    hide NodeOnPage, NodeImage;
    NodePageView(pages, s.id, s.kids, s.seps, pageSize);
  }

  lemma NodePageView(pages: PageMap, id: PageId, kids: seq<Stored>, seps: seq<u64>, pageSize: nat)
    requires NodeOnPage(pages, id, kids, seps, pageSize)
    ensures id in pages && NodeImage(pages[id], id, kids, seps) && |kids| == |seps| + 1
  {
    hide InteriorPage, SeparatorBytes;
  }

  lemma SearchInKid(s: Stored, key: u64)
    requires s.StoredNode? && Searchable(Value(s))
    ensures |s.kids| == |s.seps| + 1 && Shaped(Value(s))
    ensures var kid := Value(s.kids[Rank(s.seps, key)]);
            && Searchable(kid) && Shaped(kid)
            && RowFor(Value(s), key) == RowFor(kid, key) && Lookup(Value(s), key) == Lookup(kid, key)
  {
    hide Rank;
    ValueOfNode(s);
    SearchableIsShaped(Value(s));
  }

  // What the cell of a row and the pages that its pointer leads to bring together.
  function Assembled(pages: PageMap, row: Option<Row>, n: nat): Option<Result<Option<seq<byte>>>> {
    match row
    case None => Some(Ok(None))
    case Some(r) =>
      var c := CellOf(r);
      if c.overflow.None? then Some(Ok(Some(c.payload)))
      else
        match Followed(pages, c.overflow.value, n)
        case None => None
        case Some(Err(e)) => Some(Err(e))
        case Some(Ok(data)) => Some(Ok(Some(c.payload + data)))
  }

  lemma SpilledIsAssembled(pages: PageMap, r: Row)
    requires RowSpilled(pages, r)
    ensures Assembled(pages, Some(r), |r.spill.ids|) == Some(Ok(Some(r.value)))
  {
    hide Flatten, ChainHolds, Followed;
    RowAssembled(pages, r);
    ChainFollowed(pages, r.spill);
  }

  lemma {:induction false} FoundIsSpilled(pages: PageMap, s: Stored, key: u64)
    requires Shaped(Value(s)) && Spilled(pages, s) && RowFor(Value(s), key).Some?
    ensures RowSpilled(pages, RowFor(Value(s), key).value)
  {
    hide Rank, RowSpilled;
    match s
    case StoredLeaf(_, rows, _) => assert rows[Rank(Keys(rows), key)] in rows;
    case StoredNode(_, kids, seps) =>
      ValueOfNode(s);
      FoundIsSpilled(pages, kids[Rank(seps, key)], key);
  }

  // Route from the root to the leaf of the key, then assemble its payload, whatever the row's pointer
  // leads to, as long as the links over at most n pages come to an end.
  method SearchPages(pager: Pager, rootPage: PageId, key: u64, ghost s: Stored, ghost n: nat)
    returns (r: Result<Option<seq<byte>>>)
    requires pager.Valid() && s.id == rootPage
    requires OnPages(pager.pages, s, pager.pageSize) && Searchable(Value(s)) && Shaped(Value(s))
    requires Assembled(pager.pages, RowFor(Value(s), key), n).Some?
    ensures r == Assembled(pager.pages, RowFor(Value(s), key), n).value
  {
    hide Pager.Valid, OnPages, Value, NodeImage, LeafImage, RowFor, Rank, Has, Ascending, CellOf, Keys, ReadPageHeader,
         Searchable, Followed;
    var curr := rootPage;
    ghost var at := s;
    while true
      invariant at.id == curr && OnPages(pager.pages, at, pager.pageSize) && Searchable(Value(at))
      invariant Shaped(Value(at)) && RowFor(Value(at), key) == RowFor(Value(s), key)
      decreases at
    {
      var pageType := ReadPageType(pager, curr, at);
      var look := pager.WithPage(curr);
      if pageType == TableLeaf {
        LeafView(pager.pages, at, pager.pageSize);
        SearchInLeaf(at, key);
        var found := LeafStep(look.value, curr, key, at.rows, at.used);
        match found {
          case None =>
            return Ok(None);
          case Some((payload, overflow)) =>
            if overflow.Some? {
              var data := ReadOverflowChain(pager, overflow.value, n);
              if data.Err? {
                return Err(data.error);
              }
              return Ok(Some(payload + data.value));
            }
            return Ok(Some(payload));
        }
      }
      NodeView(pager.pages, at, pager.pageSize);
      SearchInKid(at, key);
      var next, _ := Route(look.value, curr, key, at.kids, at.seps);
      curr, at := next, at.kids[Rank(at.seps, key)];
    }
  }

  lemma SearchInLeaf(s: Stored, key: u64)
    requires s.StoredLeaf? && Searchable(Value(s))
    ensures Shaped(Value(s)) && Ascending(Keys(s.rows))
    ensures Has(Keys(s.rows), key) ==> Rank(Keys(s.rows), key) < |s.rows|
    ensures RowFor(Value(s), key) == if Has(Keys(s.rows), key) then Some(s.rows[Rank(Keys(s.rows), key)]) else None
  {
    hide Rank, Ascending;
  }

  // On a tree stored with all its payloads: the value-level lookup.
  method Search(pager: Pager, rootPage: PageId, key: u64, ghost s: Stored) returns (r: Result<Option<seq<byte>>>)
    requires pager.Valid() && s.id == rootPage
    requires Stores(pager.pages, s, pager.pageSize) && Searchable(Value(s))
    ensures Shaped(Value(s)) && r == Ok(Lookup(Value(s), key))
  {
    hide Pager.Valid, OnPages, Spilled, Value, RowFor, RowSpilled, Searchable, Assembled;
    SearchableIsShaped(Value(s));
    ghost var found, n := RowFor(Value(s), key), 0;
    NoRowAssembled(pager.pages);
    if found.Some? {
      FoundIsSpilled(pager.pages, s, key);
      SpilledIsAssembled(pager.pages, found.value);
      n := |found.value.spill.ids|;
    }
    r := SearchPages(pager, rootPage, key, s, n);
  }

  lemma NoRowAssembled(pages: PageMap)
    ensures Assembled(pages, None, 0) == Some(Ok(None))
  {
  }

  lemma SpillHolds(pages: PageMap, r: Row)
    requires RowSpilled(pages, r)
    ensures ChainHolds(pages, r.spill)
  {
  }

  // ---- scan ----

  type Item = (u64, seq<byte>)

  function Items(rows: seq<Row>): (items: seq<Item>)
    ensures |items| == |rows|
    ensures forall i :: 0 <= i < |items| ==> items[i] == (rows[i].key, rows[i].value)
  {
    seq(|rows|, i requires 0 <= i < |rows| => (rows[i].key, rows[i].value))
  }

  // Hand the items over one by one; the callback, looking back on all it has received,
  // says whether it wants more.
  function Offered(seen: seq<Item>, items: seq<Item>, more: seq<Item> -> bool): (seq<Item>, bool)
    decreases items
  {
    if items == [] then (seen, true)
    else
      var seen' := seen + [items[0]];
      if more(seen') then Offered(seen', items[1..], more) else (seen', false)
  }

  // Early stop delivers a prefix, which ends with the first refused item.
  lemma {:induction false} OfferedIsPrefix(seen: seq<Item>, items: seq<Item>, more: seq<Item> -> bool) returns (n: nat)
    ensures n <= |items| && Offered(seen, items, more).0 == seen + items[..n]
    ensures forall k :: 0 < k < n ==> more(seen + items[..k])
    ensures Offered(seen, items, more).1 ==> n == |items| && (n > 0 ==> more(seen + items[..n]))
    ensures !Offered(seen, items, more).1 ==> n > 0 && !more(seen + items[..n])
    decreases items
  {
    if items == [] {
      n := 0;
      assert seen + items[..0] == seen;
    } else {
      var seen' := seen + [items[0]];
      assert seen + items[..1] == seen';
      if more(seen') {
        var m := OfferedIsPrefix(seen', items[1..], more);
        n := m + 1;
        forall k | 0 <= k <= m ensures seen' + items[1..][..k] == seen + items[..k + 1] {
        }
        forall k | 0 < k < n ensures more(seen + items[..k]) {
          if k > 1 {
            assert more(seen' + items[1..][..k - 1]);
          }
        }
      } else {
        n := 1;
      }
    }
  }

  lemma {:induction false} OfferedConcat(seen: seq<Item>, a: seq<Item>, b: seq<Item>, more: seq<Item> -> bool)
    ensures Offered(seen, a + b, more)
         == var (seen', go) := Offered(seen, a, more); if go then Offered(seen', b, more) else (seen', false)
    decreases a
  {
    if a == [] {
      assert a + b == b;
    } else {
      assert (a + b)[1..] == a[1..] + b;
      OfferedConcat(seen + [a[0]], a[1..], b, more);
    }
  }

  lemma OfferedOne(seen: seq<Item>, item: Item, more: seq<Item> -> bool)
    ensures Offered(seen, [item], more) == (seen + [item], more(seen + [item]))
  {
    assert [item][1..] == [];
    assert Offered(seen + [item], [item][1..], more) == (seen + [item], true);
  }

  // One more row, after the rows before it were all accepted.
  lemma OfferedRow(seen: seq<Item>, rows: seq<Row>, i: nat, more: seq<Item> -> bool)
    requires i < |rows| && Offered(seen, Items(rows[..i]), more).1
    ensures var seen' := Offered(seen, Items(rows[..i]), more).0 + [(rows[i].key, rows[i].value)];
            Offered(seen, Items(rows[..i + 1]), more) == (seen', more(seen'))
  {
    assert Items(rows[..i + 1]) == Items(rows[..i]) + [(rows[i].key, rows[i].value)];
    OfferedConcat(seen, Items(rows[..i]), [(rows[i].key, rows[i].value)], more);
    OfferedOne(Offered(seen, Items(rows[..i]), more).0, (rows[i].key, rows[i].value), more);
  }

  // A refusal ends the scan.
  lemma OfferedStops(seen: seq<Item>, rows: seq<Row>, i: nat, more: seq<Item> -> bool)
    requires i <= |rows| && !Offered(seen, Items(rows[..i]), more).1
    ensures Offered(seen, Items(rows), more) == Offered(seen, Items(rows[..i]), more)
  {
    assert Items(rows) == Items(rows[..i]) + Items(rows[i..]);
    OfferedConcat(seen, Items(rows[..i]), Items(rows[i..]), more);
  }

  lemma OfferedKid(seen: seq<Item>, kids: seq<Stored>, i: nat, more: seq<Item> -> bool)
    requires i < |kids| && Offered(seen, Items(RowsOf(Values(kids[..i]))), more).1
    ensures Offered(seen, Items(RowsOf(Values(kids[..i + 1]))), more)
         == Offered(Offered(seen, Items(RowsOf(Values(kids[..i]))), more).0, Items(Rows(Value(kids[i]))), more)
  {
    hide Value, Rows, RowsOf, Offered, Items;
    var a, b := RowsOf(Values(kids[..i])), Rows(Value(kids[i]));
    assert Values(kids[..i + 1]) == Values(kids[..i]) + [Value(kids[i])];
    RowsOfConcat(Values(kids[..i]), [Value(kids[i])]);
    RowsOfOne(Value(kids[i]));
    ItemsConcat(a, b);
    OfferedConcat(seen, Items(a), Items(b), more);
  }

  lemma ItemsConcat(a: seq<Row>, b: seq<Row>)
    ensures Items(a + b) == Items(a) + Items(b)
  {
  }

  lemma OfferedStopsAtKid(seen: seq<Item>, kids: seq<Stored>, i: nat, more: seq<Item> -> bool)
    requires i <= |kids| && !Offered(seen, Items(RowsOf(Values(kids[..i]))), more).1
    ensures Offered(seen, Items(RowsOf(Values(kids))), more) == Offered(seen, Items(RowsOf(Values(kids[..i]))), more)
  {
    hide Value, Rows, RowsOf, Offered, Items;
    var a, b := RowsOf(Values(kids[..i])), RowsOf(Values(kids[i..]));
    assert Values(kids) == Values(kids[..i]) + Values(kids[i..]);
    RowsOfConcat(Values(kids[..i]), Values(kids[i..]));
    ItemsConcat(a, b);
    OfferedConcat(seen, Items(a), Items(b), more);
  }

  // A leaf cell as scan_with_ref reads it: row id, where the inline payload lies, and the
  // overflow field.
  function ReadLeafCellRef(b: seq<byte>, id: PageId, idx: nat): Result<(u64, nat, nat, u32)> {
    match ReadCellPointer(b, id, idx)
    case Err(e) => Err(e)
    case Ok(p) =>
      if p >= |b| then Err(Corrupted) else LeafCellRefAt(b, p)
  }

  function LeafCellRefAt(b: seq<byte>, p: nat): Result<(u64, nat, nat, u32)>
    requires p < |b|
  {
    match V.Decoded(b[p..])
    case Err(e) => Err(e)
    case Ok((payloadSize, n1)) =>
      match V.Decoded(b[p + n1..])
      case Err(e) => Err(e)
      case Ok((rowId, n2)) =>
        var offset := p + n1 + n2;
        if |b| < offset + payloadSize + 4 then Err(Corrupted)
        else Ok((rowId, offset, payloadSize, FromLe32(b[offset + payloadSize..offset + payloadSize + 4])))
  }

  // Borrowing a cell and copying it see the same cell, on every buffer.
  lemma BorrowedIsCopied(b: seq<byte>, id: PageId, idx: nat)
    ensures ReadLeafCellRef(b, id, idx).Ok? <==> ReadLeafCell(b, id, idx).Ok?
    ensures match ReadLeafCellRef(b, id, idx)
            case Err(e) => ReadLeafCell(b, id, idx) == Err(e)
            case Ok((rowId, offset, len, field)) =>
              && offset + len <= |b|
              && ReadLeafCell(b, id, idx)
                 == Ok(LeafCell(rowId, b[offset..offset + len], if field > 0 then Some(field) else None))
  {
    hide ReadCellPointer, LeafCellFromBytes, LeafCellRefAt;
    var pointer := ReadCellPointer(b, id, idx);
    if pointer.Ok? && pointer.value < |b| {
      BorrowedAt(b, pointer.value);
    }
  }

  lemma BorrowedAt(b: seq<byte>, p: nat)
    requires p < |b|
    ensures match LeafCellRefAt(b, p)
            case Err(e) => LeafCellFromBytes(b[p..]) == Err(e)
            case Ok((rowId, offset, len, field)) =>
              && offset + len <= |b|
              && LeafCellFromBytes(b[p..])
                 == Ok(LeafCell(rowId, b[offset..offset + len], if field > 0 then Some(field) else None))
  {
    hide V.Decoded, FromLe32;
    var s := b[p..];
    var first := V.Decoded(s);
    if first.Ok? {
      var (payloadSize, n1) := first.value;
      DropDrop(b, p, n1);
      var second := V.Decoded(s[n1..]);
      if second.Ok? {
        var at := n1 + second.value.1;
        if |s| >= at + payloadSize + 4 {
          DropSlice(b, p, at, at + payloadSize);
          DropSlice(b, p, at + payloadSize, at + payloadSize + 4);
        }
      }
    }
  }

  lemma DropDrop(b: seq<byte>, p: nat, n: nat)
    requires p + n <= |b|
    ensures b[p..][n..] == b[p + n..]
  {
  }

  lemma DropSlice(b: seq<byte>, p: nat, i: nat, j: nat)
    requires i <= j && p + j <= |b|
    ensures b[p..][i..j] == b[p + i..p + j]
  {
  }

  lemma RowRead(pages: PageMap, s: Stored, i: nat, pageSize: nat)
    requires s.StoredLeaf? && OnPages(pages, s, pageSize) && Spilled(pages, s) && i < |s.rows|
    ensures s.id in pages && ReadLeafCell(pages[s.id], s.id, i) == Ok(CellOf(s.rows[i])) && RowSpilled(pages, s.rows[i])
  {
    hide LeafPage, RowSpilled, ReadLeafCell, CellOf;
    LeafCellRead(pages[s.id], s.id, CellsOf(s.rows), pageSize - PAGE_RESERVED_TRAILER - s.used, i);
    assert s.rows[i] in s.rows;
  }

  // The row of a cell, its payload copied out of the page.
  method CopiedItem(pager: Pager, pageBuf: seq<byte>, id: PageId, i: nat, ghost s: Stored) returns (item: Item)
    requires pager.Valid() && s.StoredLeaf? && s.id == id && Stores(pager.pages, s, pager.pageSize) && i < |s.rows|
    requires id in pager.pages && pager.pages[id] == pageBuf
    ensures item == (s.rows[i].key, s.rows[i].value)
  {
    hide Pager.Valid, OnPages, Spilled, RowSpilled, CellOf, ReadLeafCell, Flatten, ChainHolds;
    RowRead(pager.pages, s, i, pager.pageSize);
    RowAssembled(pager.pages, s.rows[i]);
    SpillHolds(pager.pages, s.rows[i]);
    var cell := ReadLeafCell(pageBuf, id, i).value;
    if cell.overflow.Some? {
      ChainFollowed(pager.pages, s.rows[i].spill);
      var data := ReadOverflowChain(pager, cell.overflow.value, |s.rows[i].spill.ids|);
      return (cell.rowId, cell.payload + data.value);
    }
    return (cell.rowId, cell.payload);
  }

  // The row of a cell, its inline payload a slice of the page.
  method BorrowedItem(pager: Pager, pageBuf: seq<byte>, id: PageId, i: nat, ghost s: Stored) returns (item: Item)
    requires pager.Valid() && s.StoredLeaf? && s.id == id && Stores(pager.pages, s, pager.pageSize) && i < |s.rows|
    requires id in pager.pages && pager.pages[id] == pageBuf
    ensures item == (s.rows[i].key, s.rows[i].value)
  {
    hide Pager.Valid, OnPages, Spilled, RowSpilled, CellOf, ReadLeafCell, ReadLeafCellRef, Flatten, ChainHolds;
    RowRead(pager.pages, s, i, pager.pageSize);
    RowAssembled(pager.pages, s.rows[i]);
    SpillHolds(pager.pages, s.rows[i]);
    BorrowedIsCopied(pageBuf, id, i);
    var (rowId, offset, payloadLen, overflow) := ReadLeafCellRef(pageBuf, id, i).value;
    var inline := pageBuf[offset..offset + payloadLen];
    if overflow == 0 {
      return (rowId, inline);
    }
    ChainFollowed(pager.pages, s.rows[i].spill);
    var data := ReadOverflowChain(pager, overflow, |s.rows[i].spill.ids|);
    return (rowId, inline + data.value);
  }

  // Deliver the rows below a page in order, each with its whole payload; false when the callback
  // wants no more.
  method ScanSubtreeWith(pager: Pager, id: PageId, more: seq<Item> -> bool, seen: seq<Item>, ghost s: Stored)
    returns (seen': seq<Item>, go: bool)
    requires pager.Valid() && s.id == id && Stores(pager.pages, s, pager.pageSize)
    ensures (seen', go) == Offered(seen, Items(Rows(Value(s))), more)
    decreases s
  {
    hide Pager.Valid, OnPages, Spilled, NodeImage, LeafImage, RowSpilled, CellOf, ReadPageHeader, Offered, Items,
         ReadLeafCell, RowsOf, Values, ReadInteriorCell, Flatten, ChainHolds;
    var pageType := ReadPageType(pager, id, s);
    var read := pager.ReadPage(id);
    var pageBuf := read.value[..];
    seen' := seen;
    if pageType == TableLeaf {
      LeafView(pager.pages, s, pager.pageSize);
      LeafImageRead(pageBuf, id, s.rows, s.used);
      OfferedNothing(seen, more, s.rows, []);
      var numCells := ReadPageHeader(pageBuf, id).value.numCells;
      for i := 0 to numCells
        invariant (seen', true) == Offered(seen, Items(s.rows[..i]), more)
      {
        OfferedRow(seen, s.rows, i, more);
        var item := CopiedItem(pager, pageBuf, id, i, s);
        seen' := seen' + [item];
        if !more(seen') {
          OfferedStops(seen, s.rows, i + 1, more);
          return seen', false;
        }
      }
      SliceAll(s.rows);
      return seen', true;
    }
    NodeView(pager.pages, s, pager.pageSize);
    NodeRead(pageBuf, id, s.kids, s.seps);
    ValueOfNode(s);
    OfferedNothing(seen, more, [], s.kids);
    var header := ReadPageHeader(pageBuf, id).value;
    for i := 0 to header.numCells
      invariant (seen', true) == Offered(seen, Items(RowsOf(Values(s.kids[..i]))), more)
    {
      var cell := ReadInteriorCell(pageBuf, id, i).value;
      SpilledKid(pager.pages, s, i);
      OfferedKid(seen, s.kids, i, more);
      seen', go := ScanSubtreeWith(pager, cell.leftChild, more, seen', s.kids[i]);
      if !go {
        OfferedStopsAtKid(seen, s.kids, i + 1, more);
        return seen', false;
      }
    }
    var last := header.numCells;
    SpilledKid(pager.pages, s, last);
    OfferedKid(seen, s.kids, last, more);
    seen', go := ScanSubtreeWith(pager, header.rightChild.value, more, seen', s.kids[last]);
    SliceAll(s.kids);
  }

  // The same scan over borrowed payload slices; only overflowing payloads are copied together.
  method ScanSubtreeWithRef(pager: Pager, id: PageId, more: seq<Item> -> bool, seen: seq<Item>, ghost s: Stored)
    returns (seen': seq<Item>, go: bool)
    requires pager.Valid() && s.id == id && Stores(pager.pages, s, pager.pageSize)
    ensures (seen', go) == Offered(seen, Items(Rows(Value(s))), more)
    decreases s
  {
    hide Pager.Valid, OnPages, Spilled, NodeImage, LeafImage, RowSpilled, CellOf, ReadPageHeader, Offered, Items,
         ReadLeafCell, ReadLeafCellRef, RowsOf, Values, ReadInteriorCell, Flatten, ChainHolds;
    var pageType := ReadPageType(pager, id, s);
    var read := pager.ReadPage(id);
    var pageBuf := read.value[..];
    seen' := seen;
    if pageType == TableLeaf {
      LeafView(pager.pages, s, pager.pageSize);
      LeafImageRead(pageBuf, id, s.rows, s.used);
      OfferedNothing(seen, more, s.rows, []);
      var numCells := ReadPageHeader(pageBuf, id).value.numCells;
      for i := 0 to numCells
        invariant (seen', true) == Offered(seen, Items(s.rows[..i]), more)
      {
        OfferedRow(seen, s.rows, i, more);
        var item := BorrowedItem(pager, pageBuf, id, i, s);
        seen' := seen' + [item];
        if !more(seen') {
          OfferedStops(seen, s.rows, i + 1, more);
          return seen', false;
        }
      }
      SliceAll(s.rows);
      return seen', true;
    }
    NodeView(pager.pages, s, pager.pageSize);
    NodeRead(pageBuf, id, s.kids, s.seps);
    ValueOfNode(s);
    OfferedNothing(seen, more, [], s.kids);
    var header := ReadPageHeader(pageBuf, id).value;
    for i := 0 to header.numCells
      invariant (seen', true) == Offered(seen, Items(RowsOf(Values(s.kids[..i]))), more)
    {
      var cell := ReadInteriorCell(pageBuf, id, i).value;
      SpilledKid(pager.pages, s, i);
      OfferedKid(seen, s.kids, i, more);
      seen', go := ScanSubtreeWithRef(pager, cell.leftChild, more, seen', s.kids[i]);
      if !go {
        OfferedStopsAtKid(seen, s.kids, i + 1, more);
        return seen', false;
      }
    }
    var last := header.numCells;
    SpilledKid(pager.pages, s, last);
    OfferedKid(seen, s.kids, last, more);
    seen', go := ScanSubtreeWithRef(pager, header.rightChild.value, more, seen', s.kids[last]);
    SliceAll(s.kids);
  }

  lemma OfferedNothing(seen: seq<Item>, more: seq<Item> -> bool, rows: seq<Row>, kids: seq<Stored>)
    ensures Offered(seen, Items(rows[..0]), more) == (seen, true)
    ensures Offered(seen, Items(RowsOf(Values(kids[..0]))), more) == (seen, true)
  {
    assert Values(kids[..0]) == [];
  }

  // scan collects every row.
  method Scan(pager: Pager, rootPage: PageId, ghost s: Stored) returns (cells: seq<Item>)
    requires pager.Valid() && s.id == rootPage && Stores(pager.pages, s, pager.pageSize)
    ensures cells == Items(Rows(Value(s)))
  {
    hide Pager.Valid, OnPages, Spilled, Items, Offered;
    var go;
    cells, go := ScanSubtreeWith(pager, rootPage, _ => true, [], s);
    ghost var n := OfferedIsPrefix([], Items(Rows(Value(s))), _ => true);
  }
}
