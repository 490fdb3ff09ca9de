// Interior nodes in the pager: routing, adding entries, refilling and splitting
// (src/btree/engine.rs).
module InteriorNodes {
  import opened Wrappers
  import opened Bytes
  import opened Cells
  import opened Keyed
  import opened Pages
  import opened LeafPages
  import opened InteriorPages
  import opened Paging
  import opened TreeModel
  import opened TreeSizes
  import opened StoredTrees
  import opened LeafNodes
  import V = Varint

  ghost predicate NodeImage(b: seq<byte>, id: PageId, kids: seq<Stored>, seps: seq<u64>) {
    && id > 1
    && |kids| == |seps| + 1
    && SeparatorBytes(seps) + PAGE_RESERVED_TRAILER <= |b|
    && InteriorPage(b, id, EntriesOf(kids, seps), kids[|seps|].id, |b| - PAGE_RESERVED_TRAILER - SeparatorBytes(seps))
  }

  ghost predicate NodeAt(pages: PageMap, id: PageId, kids: seq<Stored>, seps: seq<u64>, pageSize: nat) {
    id in pages && |pages[id]| == pageSize && NodeImage(pages[id], id, kids, seps)
  }

  lemma NodeRead(b: seq<byte>, id: PageId, kids: seq<Stored>, seps: seq<u64>)
    requires NodeImage(b, id, kids, seps)
    ensures id > 1 && |kids| == |seps| + 1 && |b| < 0x1_0000
    ensures ReadPageHeader(b, id).Ok?
    ensures var h := ReadPageHeader(b, id).value;
            h.pageType == TableInterior && h.numCells == |seps| && h.rightChild == Some(kids[|seps|].id)
    ensures forall i :: 0 <= i < |seps| ==> ReadInteriorCell(b, id, i) == Ok(InteriorCell(kids[i].id, seps[i]))
  {
    hide InteriorPage, ReadPageHeader, ReadInteriorCell, SeparatorBytes;
    var cells, right, content := EntriesOf(kids, seps), kids[|seps|].id, |b| - PAGE_RESERVED_TRAILER - SeparatorBytes(seps);
    InteriorPageBounds(b, id, cells, right, content);
    forall i | 0 <= i < |seps| ensures ReadInteriorCell(b, id, i) == Ok(InteriorCell(kids[i].id, seps[i])) {
      InteriorCellRead(b, id, cells, right, content, i);
    }
  }

  // The child a key is routed to and the position of its cell; the right child has none.
  method Route(b: seq<byte>, id: PageId, key: u64, ghost kids: seq<Stored>, ghost seps: seq<u64>)
    returns (child: PageId, idx: Option<nat>)
    requires NodeImage(b, id, kids, seps)
    ensures |kids| == |seps| + 1
    ensures var i := Rank(seps, key);
            child == kids[i].id && idx == if i < |seps| then Some(i) else None
  {
    hide NodeImage, ReadPageHeader, ReadInteriorCell, Rank;
    NodeRead(b, id, kids, seps);
    var header := ReadPageHeader(b, id).value;
    child := header.rightChild.value;
    idx := None;
    for i := 0 to header.numCells
      invariant child == kids[|seps|].id && idx == None
      invariant forall j :: 0 <= j < i ==> seps[j] < key
    {
      var cell := ReadInteriorCell(b, id, i).value;
      if key <= cell.rowId {
        RankIs(seps, key, i);
        return cell.leftChild, Some(i);
      }
    }
    RankIs(seps, key, |seps|);
  }

  // ---- adding an entry ----

  lemma EntriesJoined(kids: seq<Stored>, seps: seq<u64>, kid: Stored, sep: u64)
    requires |kids| == |seps| + 1
    ensures var j := Above(seps, sep);
            && EntriesOf(Inserted(kids, j, kid), Inserted(seps, j, sep))
               == Joined(EntriesOf(kids, seps), InteriorCell(kid.id, sep))
            && Inserted(kids, j, kid)[|seps| + 1] == kids[|seps|]
  {
    hide Above;
    assert Separators(EntriesOf(kids, seps)) == seps;
  }

  lemma SeparatorBytesInserted(seps: seq<u64>, j: nat, sep: u64)
    requires j <= |seps|
    ensures SeparatorBytes(Inserted(seps, j, sep)) == SeparatorBytes(seps) + 4 + |V.Encoding(sep)|
  {
    hide SeparatorBytes, SeparatorFootprints, Sum, V.Encoding;
    SeparatorSumInserted(seps, j, sep);
    SeparatorSum(Inserted(seps, j, sep));
  }

  method InsertEntry(buf: array<byte>, id: PageId, cell: InteriorCell, ghost kids: seq<Stored>,
                     ghost seps: seq<u64>, ghost kid: Stored)
    returns (ok: bool)
    requires NodeImage(buf[..], id, kids, seps) && cell.leftChild == kid.id
    modifies buf
    ensures |kids| == |seps| + 1
    ensures ok <==> NodeFits(seps, cell.rowId, buf.Length)
    ensures ok ==> var j := Above(seps, cell.rowId);
                   NodeImage(buf[..], id, Inserted(kids, j, kid), Inserted(seps, j, cell.rowId))
    ensures !ok ==> buf[..] == old(buf[..])
  {
    hide InteriorPage, SameSurroundings, SeparatorBytes, Above, Inserted, Joined, V.Encoding, EntriesOf;
    EntriesJoined(kids, seps, kid, cell.rowId);
    SeparatorBytesInserted(seps, Above(seps, cell.rowId), cell.rowId);
    ok := InsertInteriorCellIntoPage(buf, id, cell, EntriesOf(kids, seps), kids[|seps|].id,
                                     buf.Length - PAGE_RESERVED_TRAILER - SeparatorBytes(seps));
  }

  // Repoint the right child.
  method RepointRight(buf: array<byte>, id: PageId, newRight: PageId, ghost kids: seq<Stored>,
                      ghost seps: seq<u64>, ghost kid: Stored)
    requires NodeImage(buf[..], id, kids, seps) && newRight == kid.id
    modifies buf
    ensures |kids| == |seps| + 1 && NodeImage(buf[..], id, kids[|seps| := kid], seps)
  {
    hide InteriorPage, SameSurroundings, SeparatorBytes;
    assert EntriesOf(kids[|seps| := kid], seps) == EntriesOf(kids, seps);
    SetRightChild(buf, id, newRight, EntriesOf(kids, seps), kids[|seps|].id,
                  buf.Length - PAGE_RESERVED_TRAILER - SeparatorBytes(seps));
  }

  // ---- refilling ----

  method BuildInteriorPage(pageSize: nat, id: PageId, cells: seq<InteriorCell>, right: PageId,
                           ghost kids: seq<Stored>, ghost seps: seq<u64>, ghost rightKid: Stored)
    returns (buf: array<byte>)
    requires MIN_PAGE <= pageSize < 0x1_0000 && id > 1
    requires |kids| == |seps| && cells == EntriesOf(kids, seps) && right == rightKid.id
    ensures fresh(buf) && buf.Length == pageSize
    ensures var (kids', seps') := FilledEntries(kids, seps, rightKid, pageSize); NodeImage(buf[..], id, kids', seps')
  {
    hide InteriorPage, SameSurroundings, NodeImage, FilledEntries, Above, Inserted, NodeFits;
    buf := new byte[pageSize](_ => 0);
    InitInteriorPage(buf, id, right);
    EmptyNodeImage(buf[..], id, rightKid);
    EntriesStart(kids, seps, rightKid, pageSize);
    for n := 0 to |cells|
      invariant var (kids', seps') := FilledEntries(kids[..n], seps[..n], rightKid, pageSize);
                NodeImage(buf[..], id, kids', seps')
    {
      ghost var (kids', seps') := FilledEntries(kids[..n], seps[..n], rightKid, pageSize);
      EntriesStep(kids, seps, n, rightKid, pageSize);
      var ok := InsertEntry(buf, id, cells[n], kids', seps', kids[n]);
    }
    SliceAll(kids);
    SliceAll(seps);
  }

  lemma EmptyNodeImage(b: seq<byte>, id: PageId, rightKid: Stored)
    requires id > 1 && PAGE_RESERVED_TRAILER <= |b|
    requires InteriorPage(b, id, [], rightKid.id, |b| - PAGE_RESERVED_TRAILER)
    ensures NodeImage(b, id, [rightKid], [])
  {
    assert EntriesOf([rightKid], []) == [];
  }

  lemma EntriesStart<T>(kids: seq<T>, seps: seq<u64>, right: T, page: nat)
    ensures FilledEntries(kids[..0], seps[..0], right, page) == ([right], [])
  {
  }

  lemma EntriesStep<T>(kids: seq<T>, seps: seq<u64>, n: nat, right: T, page: nat)
    requires |kids| == |seps| && n < |kids|
    ensures var (kids', seps') := FilledEntries(kids[..n], seps[..n], right, page);
            FilledEntries(kids[..n + 1], seps[..n + 1], right, page)
            == if NodeFits(seps', seps[n], page) then
                 var j := Above(seps', seps[n]); (Inserted(kids', j, kids[n]), Inserted(seps', j, seps[n]))
               else (kids', seps')
  {
    hide NodeFits, Above, Inserted;
    assert kids[..n + 1][..n] == kids[..n];
    assert seps[..n + 1][..n] == seps[..n];
  }

  // ---- values ----

  lemma ValuesInserted(kids: seq<Stored>, j: nat, kid: Stored)
    requires j <= |kids|
    ensures Values(Inserted(kids, j, kid)) == Inserted(Values(kids), j, Value(kid))
  {
    hide Value;
  }

  lemma ValuesUpdated(kids: seq<Stored>, i: nat, kid: Stored)
    requires i < |kids|
    ensures Values(kids[i := kid]) == Values(kids)[i := Value(kid)]
  {
    hide Value;
  }

  lemma ValuesSlice(kids: seq<Stored>, a: nat, b: nat)
    requires a <= b <= |kids|
    ensures Values(kids[a..b]) == Values(kids)[a..b]
  {
    hide Value;
  }

  lemma ValuesGrown(kids: seq<Stored>, seps: seq<u64>, i: nat, left: Stored, right: Stored, sep: u64)
    requires |kids| == |seps| + 1 && i <= |seps|
    ensures var (kids', seps') := Grown(kids, seps, i, left, right, sep, AsCoded);
            Grown(Values(kids), seps, i, Value(left), Value(right), sep, AsCoded) == (Values(kids'), seps')
  {
    hide Value, Values, Inserted, Above;
    var relinked := if i == |seps| then kids[i := right] else kids[i := left];
    ValuesUpdated(kids, i, right);
    ValuesUpdated(kids, i, left);
    ValuesInserted(relinked, Above(seps, sep), left);
  }

  lemma {:induction false} ValuesFilled(kids: seq<Stored>, seps: seq<u64>, right: Stored, page: nat)
    requires |kids| == |seps|
    ensures var (kids', seps') := FilledEntries(kids, seps, right, page);
            FilledEntries(Values(kids), seps, Value(right), page) == (Values(kids'), seps')
  {
    hide Value, Inserted, Above, NodeFits;
    if seps == [] {
      assert Values([right]) == [Value(right)];
    } else {
      var n := |seps| - 1;
      ValuesFilled(kids[..n], seps[..n], right, page);
      ValuesSlice(kids, 0, n);
      assert Values(kids)[..n] == Values(kids[..n]);
      var (kids', seps') := FilledEntries(kids[..n], seps[..n], right, page);
      ValuesInserted(kids', Above(seps', seps[n]), kids[n]);
    }
  }

  // Leaf or interior node.
  method ReadPageType(pager: Pager, id: PageId, ghost s: Stored) returns (pageType: PageType)
    requires pager.Valid() && OnPages(pager.pages, s, pager.pageSize) && s.id == id
    ensures pageType == if s.StoredLeaf? then TableLeaf else TableInterior
    ensures id in pager.pages
  {
    hide LeafPage, InteriorPage, ReadPageHeader, SeparatorBytes, Pager.Valid, CellOf;
    var look := pager.WithPage(id);
    if s.StoredLeaf? {
      LeafImageRead(look.value, id, s.rows, s.used);
    } else {
      assert NodeImage(look.value, id, s.kids, s.seps);
      NodeRead(look.value, id, s.kids, s.seps);
    }
    pageType := ReadPageHeader(look.value, id).value.pageType;
  }
}
