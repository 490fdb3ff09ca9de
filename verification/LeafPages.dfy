// Leaf page operations on raw buffers (src/btree/engine.rs), each proved
// against an operation on the ascending sequence of the page's cells.
module LeafPages {
  import opened Wrappers
  import opened Bytes
  import opened Cells
  import opened Keyed
  import opened Slots
  import opened Pages
  import V = Varint

  datatype Found = At(index: nat) | Absent(index: nat)

  function Located(keys: seq<u64>, key: u64): (r: Found)
    ensures r.index == Rank(keys, key) <= |keys|
    ensures r.At? <==> Has(keys, key)
    ensures r.At? ==> r.index < |keys|
  {
    if Has(keys, key) then At(Rank(keys, key)) else Absent(Rank(keys, key))
  }

  lemma KeyAt(keys: seq<u64>, key: u64, i: nat)
    requires Ascending(keys) && i < |keys| && keys[i] == key
    ensures Located(keys, key) == At(i)
  {
    RankIs(keys, key, i);
  }

  lemma KeysBelow(keys: seq<u64>, key: u64, i: nat)
    requires Ascending(keys) && i <= |keys|
    requires (i == 0 || keys[i - 1] < key) && (i == |keys| || key < keys[i])
    ensures Located(keys, key) == Absent(i)
  {
    RankIs(keys, key, i);
  }

  // Binary search for a row id, after a fast path for keys behind the last cell.
  method FindLeafCellIndexByKey(b: seq<byte>, pageId: PageId, key: u64, ghost cells: seq<LeafCell>, ghost content: nat)
    returns (r: Result<Found>)
    ensures LeafPage(b, pageId, cells, content) && Ascending(RowIds(cells)) ==> r == Ok(Located(RowIds(cells), key))
  {
    hide LeafPage, ReadPageHeader, ReadLeafCellRowId, Ascending, Located, Has, Rank;
    hide RowIds;
    ghost var keys := RowIds(cells);
    ghost var wellFormed := LeafPage(b, pageId, cells, content) && Ascending(keys);
    if wellFormed {
      LeafPageBounds(b, pageId, cells, content);
    }
    var read := ReadPageHeader(b, pageId);
    if read.Err? {
      return Err(read.error);
    }
    var numCells := read.value.numCells;
    if numCells == 0 {
      if wellFormed { KeysBelow(keys, key, 0); }
      return Ok(Absent(0));
    }
    if wellFormed {
      LeafCellRead(b, pageId, cells, content, numCells - 1);
    }
    var last := ReadLeafCellRowId(b, pageId, numCells - 1);
    if last.Err? {
      return Err(last.error);
    }
    if key > last.value {
      if wellFormed { KeysBelow(keys, key, numCells); }
      return Ok(Absent(numCells));
    } else if key == last.value {
      if wellFormed { KeyAt(keys, key, numCells - 1); }
      return Ok(At(numCells - 1));
    }

    if wellFormed {
      forall i | 0 <= i < numCells ensures ReadLeafCellRowId(b, pageId, i) == Ok(keys[i]) {
        LeafCellRead(b, pageId, cells, content, i);
      }
    }
    r := BinarySearch(b, pageId, key, numCells, keys, wellFormed);
  }

  // The search loop over the row ids of the first numCells cells.
  method BinarySearch(b: seq<byte>, pageId: PageId, key: u64, numCells: u16, ghost keys: seq<u64>, ghost readable: bool)
    returns (r: Result<Found>)
    requires readable ==> |keys| == numCells && Ascending(keys)
    requires readable ==> forall i :: 0 <= i < numCells ==> ReadLeafCellRowId(b, pageId, i) == Ok(keys[i])
    ensures readable ==> r == Ok(Located(keys, key))
  {
    hide ReadLeafCellRowId, Ascending, Located, Has, Rank;
    var low, high := 0, numCells;
    while low < high
      invariant 0 <= low <= high <= numCells
      invariant readable ==> low == 0 || keys[low - 1] < key
      invariant readable ==> high == numCells || key < keys[high]
    {
      var mid := low + (high - low) / 2;
      var rowId := ReadLeafCellRowId(b, pageId, mid);
      if rowId.Err? {
        return Err(rowId.error);
      }
      if rowId.value == key {
        if readable { KeyAt(keys, key, mid); }
        return Ok(At(mid));
      } else if rowId.value < key {
        low := mid + 1;
      } else {
        high := mid;
      }
    }
    if readable { KeysBelow(keys, key, low); }
    return Ok(Absent(low));
  }

  // ---- insertion ----

  // The cells of a page after cell c replaced the cell with its row id or joined in key order.
  function Put(cells: seq<LeafCell>, c: LeafCell): seq<LeafCell> {
    var i := Rank(RowIds(cells), c.rowId);
    Inserted(if Has(RowIds(cells), c.rowId) then Removed(cells, i) else cells, i, c)
  }

  // Free bytes of a leaf page.
  function LeafFree(pageId: PageId, n: nat, content: nat): int {
    content - (LeafStart(pageId) + 2 * n)
  }

  // Four consecutive copies write their concatenation.
  lemma FourCopies(b: seq<byte>, at: nat, s: seq<byte>, t: seq<byte>, u: seq<byte>, v: seq<byte>)
    requires at + |s| + |t| + |u| + |v| <= |b|
    ensures Splice(Splice(Splice(Splice(b, at, s), at + |s|, t), at + |s| + |t|, u), at + |s| + |t| + |u|, v)
         == Splice(b, at, s + t + u + v)
  {
    TwoCopies(b, at, s, t);
    TwoCopies(b, at, s + t, u);
    TwoCopies(b, at, s + t + u, v);
  }

  lemma TwoCopies(b: seq<byte>, at: nat, s: seq<byte>, t: seq<byte>)
    requires at + |s| + |t| <= |b|
    ensures Splice(Splice(b, at, s), at + |s|, t) == Splice(b, at, s + t)
  {
  }

  // Write the four fields of a cell image at position at.
  method WriteCellImage(buf: array<byte>, at: nat, c: LeafCell)
    requires c.Storable() && at + c.Size() <= buf.Length
    modifies buf
    ensures buf[..] == Splice(old(buf[..]), at, c.Image())
  {
    hide V.Encoding, Splice, Le32;
    var varintBuf1, varintBuf2 := new byte[9](_ => 0), new byte[9](_ => 0);
    var n1 := V.EncodeVarint(|c.payload|, varintBuf1);
    var n2 := V.EncodeVarint(c.rowId, varintBuf2);
    CopyInto(buf, at, varintBuf1[..n1]);
    CopyInto(buf, at + n1, varintBuf2[..n2]);
    var payloadStart := at + n1 + n2;
    CopyInto(buf, payloadStart, c.payload);
    CopyInto(buf, payloadStart + |c.payload|, Le32(c.OverflowField()));
    FourCopies(old(buf[..]), at, V.Encoding(|c.payload|), V.Encoding(c.rowId), c.payload, Le32(c.OverflowField()));
  }

  // Replacing the header of a page keeps its slots.
  lemma HeaderReplaced(b: seq<byte>, pageId: PageId, h: PageHeader, slots: seq<seq<byte>>, content: nat)
    requires h.Storable()
    requires Slotted(b, HeaderOffset(pageId) + h.HeaderSize(), slots, content)
    ensures Slotted(Splice(b, HeaderOffset(pageId), h.Image()), HeaderOffset(pageId) + h.HeaderSize(), slots, content)
    ensures HeaderHolds(Splice(b, HeaderOffset(pageId), h.Image()), pageId, h)
  {
    SpliceAt(b, HeaderOffset(pageId), h.Image());
    SlottedFrame(b, Splice(b, HeaderOffset(pageId), h.Image()), HeaderOffset(pageId) + h.HeaderSize(), slots, content);
  }

  method WritePageHeader(buf: array<byte>, pageId: PageId, h: PageHeader) returns (r: Result<()>)
    modifies buf
    ensures r.Ok? <==> HeaderOffset(pageId) + h.HeaderSize() <= buf.Length
    ensures r.Ok? ==> buf[..] == Splice(old(buf[..]), HeaderOffset(pageId), h.Image())
    ensures r.Err? ==> buf[..] == old(buf[..])
  {
    var offset := HeaderOffset(pageId);
    var bytes := h.ToBytes();
    if buf.Length < offset + |bytes| {
      return Err(Corrupted);
    }
    CopyInto(buf, offset, bytes);
    return Ok(());
  }

  // Only the B+Tree part of the page has changed.
  ghost predicate OnlyInside(b: seq<byte>, b': seq<byte>, pageId: PageId) {
    OnlyWithin(b, b', HeaderOffset(pageId), |b| - PAGE_RESERVED_TRAILER)
  }

  // The database header in the first 100 bytes of page 1 and the 40 bytes of the trailer are as before.
  ghost predicate SameSurroundings(b: seq<byte>, b': seq<byte>, pageId: PageId) {
    && |b'| == |b|
    && (pageId == 1 && |b| >= 100 ==> b'[..100] == b[..100])
    && (|b| >= 40 ==> b'[|b| - 40..] == b[|b| - 40..])
  }

  lemma InsideKeeps(b: seq<byte>, b': seq<byte>, pageId: PageId)
    requires OnlyInside(b, b', pageId)
    ensures SameSurroundings(b, b', pageId)
  {
  }

  // Insert or replace a cell; false, and nothing changed, when it does not fit.
  method InsertLeafCellRaw(buf: array<byte>, pageId: PageId, c: LeafCell, ghost cells: seq<LeafCell>,
                           ghost content: nat)
    returns (ok: bool)
    requires LeafPage(buf[..], pageId, cells, content) && Ascending(RowIds(cells))
    requires c.Storable()
    modifies buf
    ensures ok <==> c.Size() + 2 <= LeafFree(pageId, |cells|, content)
    ensures !ok ==> buf[..] == old(buf[..])
    ensures ok ==> LeafPage(buf[..], pageId, Put(cells, c), content - c.Size())
    ensures SameSurroundings(old(buf[..]), buf[..], pageId)
  {
    hide LeafPage, SlotsOfCells, Ascending, ClosedUp, ReadPageHeader, OnlyWithin, Inserted, Removed, RowIds, Rank,
         Has, LeafCell.Size, PackedContent;
    ghost var b0 := buf[..];
    LeafPageBounds(b0, pageId, cells, content);
    LeafPageSlots(b0, pageId, cells, content);
    var header := ReadPageHeader(buf[..], pageId).value;
    var offset := HeaderOffset(pageId);
    if header.FreeSpace(buf.Length, offset) < c.Size() + 2 {
      return false;
    }
    var searchRes := FindLeafCellIndexByKey(buf[..], pageId, c.rowId, cells, content);
    ghost var kept := cells;
    var insertIdx := searchRes.value.index;
    if searchRes.value.At? {
      ClosedUpPage(b0, pageId, cells, content, insertIdx);
      CloseUp(buf, offset + header.HeaderSize(), header.numCells, insertIdx);
      header := header.(numCells := header.numCells - 1);
      kept := Removed(cells, insertIdx);
    }
    ghost var b1 := buf[..];
    SlotsOfCellsBounds(b1, pageId, kept, content);
    WriteCellAndPointer(buf, pageId, header, insertIdx, c, kept, content);
    SameIsWithin(b0, HeaderOffset(pageId), |b0| - PAGE_RESERVED_TRAILER);
    WithinTransitive(b0, b1, buf[..], HeaderOffset(pageId), |b0| - PAGE_RESERVED_TRAILER);
    InsideKeeps(b0, buf[..], pageId);
    return true;
  }

  // The second half of an insertion: cell bytes below the content area, pointer, header.
  method WriteCellAndPointer(buf: array<byte>, pageId: PageId, h: PageHeader, insertIdx: nat, c: LeafCell,
                             ghost kept: seq<LeafCell>, ghost content: nat)
    requires SlotsOfCells(buf[..], pageId, kept, content) && c.Storable()
    requires h == LeafHeader(|kept|, content) && insertIdx <= |kept|
    requires LeafStart(pageId) + 2 * |kept| + 2 + c.Size() <= content
    modifies buf
    ensures LeafPage(buf[..], pageId, Inserted(kept, insertIdx, c), content - c.Size())
    ensures OnlyInside(old(buf[..]), buf[..], pageId)
  {
    hide LeafPage, SlotsOfCells, Splice, OpenedUp, WithSlot, LeafCell.Image, LeafCell.Size, PageHeader.Image,
         OnlyWithin, Inserted, Le16, LeafImages, Total;
    var header, pageSize, cellSize := h, buf.Length, c.Size();
    ghost var b1 := buf[..];
    SlotsOfCellsBounds(b1, pageId, kept, content);
    var start := HeaderOffset(pageId) + header.HeaderSize();
    var contentOffset := header.ContentStart(pageSize) - cellSize;
    WriteCellImage(buf, contentOffset, c);
    ghost var b2 := buf[..];
    if insertIdx < header.numCells {
      OpenUp(buf, start, header.numCells, insertIdx);
    } else {
      OpenedUpAtEnd(b2, start, |kept|);
    }
    assert buf[..] == OpenedUp(b2, start, |kept|, insertIdx);
    CopyInto(buf, start + insertIdx * 2, Le16(contentOffset));
    header := header.(numCells := header.numCells + 1, contentOffset := contentOffset);
    WithSlotSteps(b1, start, |kept|, content, insertIdx, c.Image());
    ghost var b3 := buf[..];
    assert b3 == WithSlot(b1, start, |kept|, content, insertIdx, c.Image());
    var written := WritePageHeader(buf, pageId, header);
    assert header == LeafHeader(|kept| + 1, content - c.Size());
    AddedToPage(b1, pageId, kept, content, insertIdx, c);
  }

  lemma SlotsOfCellsBounds(b: seq<byte>, pageId: PageId, cells: seq<LeafCell>, content: nat)
    requires SlotsOfCells(b, pageId, cells, content)
    ensures |cells| < 0x1_0000 && |b| < 0x1_0000
    ensures LeafStart(pageId) + 2 * |cells| <= content && content + PAGE_RESERVED_TRAILER <= |b|
  {
    SlottedBounds(b, LeafStart(pageId), LeafImages(cells), content);
  }

  lemma LeafPageSlots(b: seq<byte>, pageId: PageId, cells: seq<LeafCell>, content: nat)
    requires LeafPage(b, pageId, cells, content)
    ensures SlotsOfCells(b, pageId, cells, content) && AllStorable(cells)
    ensures content <= PackedContent(|b|, cells)
  {
    hide Slotted, Total;
  }

  ghost predicate SlotsOfCells(b: seq<byte>, pageId: PageId, cells: seq<LeafCell>, content: nat) {
    && AllStorable(cells)
    && Slotted(b, LeafStart(pageId), LeafImages(cells), content)
    && content + Total(LeafImages(cells)) + PAGE_RESERVED_TRAILER <= |b|
  }

  lemma ClosedUpPage(b: seq<byte>, pageId: PageId, cells: seq<LeafCell>, content: nat, idx: nat)
    requires SlotsOfCells(b, pageId, cells, content) && idx < |cells|
    ensures LeafStart(pageId) + 2 * |cells| <= |b|
    ensures SlotsOfCells(ClosedUp(b, LeafStart(pageId), |cells|, idx), pageId, Removed(cells, idx), content)
    ensures OnlyInside(b, ClosedUp(b, LeafStart(pageId), |cells|, idx), pageId)
  {
    hide Slotted, Total, ClosedUp, Removed, OnlyWithin, LeafCell.Image;
    var start, slots := LeafStart(pageId), LeafImages(cells);
    SlottedBounds(b, start, slots, content);
    ClosedUpWithin(b, start, |cells|, idx, HeaderOffset(pageId), |b| - PAGE_RESERVED_TRAILER);
    RemovedImages(cells, idx);
    ClosedUpSlots(b, start, slots, content, idx);
    TotalRemoved(slots, idx);
  }

  lemma RemovedImages(cells: seq<LeafCell>, idx: nat)
    requires AllStorable(cells) && idx < |cells|
    ensures AllStorable(Removed(cells, idx))
    ensures LeafImages(Removed(cells, idx)) == Removed(LeafImages(cells), idx)
  {
    hide LeafCell.Image;
  }

  lemma AddedSlots(b: seq<byte>, pageId: PageId, cells: seq<LeafCell>, content: nat, idx: nat, c: LeafCell)
    requires SlotsOfCells(b, pageId, cells, content) && idx <= |cells| && c.Storable()
    requires LeafStart(pageId) + 2 * |cells| + 2 + c.Size() <= content <= |b| && content < 0x1_0000
    ensures var b' := WithSlot(b, LeafStart(pageId), |cells|, content, idx, c.Image());
            && SlotsOfCells(b', pageId, Inserted(cells, idx, c), content - c.Size())
            && OnlyInside(b, b', pageId)
    ensures Total(LeafImages(Inserted(cells, idx, c))) == Total(LeafImages(cells)) + c.Size()
  {
    hide Slotted, Total, Splice, WithSlot, HeaderHolds, LeafCell.Image, Inserted;
    var start, slots := LeafStart(pageId), LeafImages(cells);
    SlottedBounds(b, start, slots, content);
    WithSlotSlots(b, start, slots, content, idx, c.Image());
    InsertedImages(cells, idx, c);
    TotalInserted(slots, idx, c.Image());
    WithSlotWithin(b, start, |cells|, content, idx, c.Image(), HeaderOffset(pageId), |b| - PAGE_RESERVED_TRAILER);
  }

  lemma AddedToPage(b: seq<byte>, pageId: PageId, cells: seq<LeafCell>, content: nat, idx: nat, c: LeafCell)
    requires SlotsOfCells(b, pageId, cells, content) && idx <= |cells| < 0xFFFF && c.Storable()
    requires LeafStart(pageId) + 2 * |cells| + 2 + c.Size() <= content <= |b| && content < 0x1_0000
    ensures var b' := WithSlot(b, LeafStart(pageId), |cells|, content, idx, c.Image());
            var b'' := Splice(b', HeaderOffset(pageId), LeafHeader(|cells| + 1, content - c.Size()).Image());
            && LeafPage(b'', pageId, Inserted(cells, idx, c), content - c.Size())
            && OnlyInside(b, b'', pageId)
  {
    hide SlotsOfCells, LeafPage, WithSlot, Splice, LeafCell.Image, LeafCell.Size, OnlyWithin, Inserted,
         PageHeader.Image, LeafImages, Total;
    var b' := WithSlot(b, LeafStart(pageId), |cells|, content, idx, c.Image());
    AddedSlots(b, pageId, cells, content, idx, c);
    PageFromSlots(b', pageId, Inserted(cells, idx, c), content - c.Size());
    WithinTransitive(b, b', Splice(b', HeaderOffset(pageId), LeafHeader(|cells| + 1, content - c.Size()).Image()),
                     HeaderOffset(pageId), |b| - PAGE_RESERVED_TRAILER);
  }

  lemma InsertedImages(cells: seq<LeafCell>, idx: nat, c: LeafCell)
    requires AllStorable(cells) && idx <= |cells| && c.Storable()
    ensures AllStorable(Inserted(cells, idx, c))
    ensures LeafImages(Inserted(cells, idx, c)) == Inserted(LeafImages(cells), idx, c.Image())
  {
    hide LeafCell.Image;
  }

  // Writing the matching header turns correct slots into a correct page.
  lemma PageFromSlots(b: seq<byte>, pageId: PageId, cells: seq<LeafCell>, content: nat)
    requires SlotsOfCells(b, pageId, cells, content) && content < 0x1_0000 && |cells| < 0x1_0000
    requires LeafStart(pageId) <= |b|
    ensures var b' := Splice(b, HeaderOffset(pageId), LeafHeader(|cells|, content).Image());
            LeafPage(b', pageId, cells, content) && OnlyInside(b, b', pageId)
  {
    hide Slotted, Total, Splice, HeaderHolds, LeafCell.Image;
    SlottedBounds(b, LeafStart(pageId), LeafImages(cells), content);
    SpliceWithin(b, HeaderOffset(pageId), LeafHeader(|cells|, content).Image(),
                 HeaderOffset(pageId), |b| - PAGE_RESERVED_TRAILER);
    HeaderReplaced(b, pageId, LeafHeader(|cells|, content), LeafImages(cells), content);
  }

  lemma ClosedUpWithin(b: seq<byte>, start: nat, n: nat, idx: nat, lo: int, hi: int)
    requires idx < n && start + 2 * n <= |b|
    requires lo <= start && start + 2 * n <= hi
    ensures OnlyWithin(b, ClosedUp(b, start, n, idx), lo, hi)
  {
    hide ClosedUp;
    ClosedUpBytes(b, start, n, idx);
  }

  lemma WithSlotWithin(b: seq<byte>, start: nat, n: nat, content: nat, idx: nat, s: seq<byte>, lo: int, hi: int)
    requires idx <= n && start + 2 * n + 2 + |s| <= content < 0x1_0000 && content <= |b|
    requires lo <= start && content <= hi
    ensures OnlyWithin(b, WithSlot(b, start, n, content, idx, s), lo, hi)
  {
    hide WithSlot;
    WithSlotBytes(b, start, n, content, idx, s);
  }

  // ---- defragmentation and deletion ----

  // The content offset of a page without dead space.
  function PackedContent(pageSize: nat, cells: seq<LeafCell>): int
    requires AllStorable(cells)
  {
    pageSize - PAGE_RESERVED_TRAILER - Total(LeafImages(cells))
  }

  // A leaf page without dead space, whose every unallocated byte is zero.
  ghost predicate CleanLeafPage(b: seq<byte>, pageId: PageId, cells: seq<LeafCell>) {
    && AllStorable(cells)
    && PackedContent(|b|, cells) >= 0
    && LeafPage(b, pageId, cells, PackedContent(|b|, cells))
    && ZeroBetween(b, LeafStart(pageId) + 2 * |cells|, PackedContent(|b|, cells))
  }

  method DefragmentLeafPage(buf: array<byte>, pageId: PageId, ghost cells: seq<LeafCell>, ghost content: nat)
    requires LeafPage(buf[..], pageId, cells, content)
    modifies buf
    ensures CleanLeafPage(buf[..], pageId, cells)
    ensures SameSurroundings(old(buf[..]), buf[..], pageId)
  {
    hide LeafPage, SlotsOfCells, Splice, ReadPageHeader, ReadLeafCell, OnlyWithin, PageHeader.Image, ZeroBetween,
         PackedContent, CleanLeafPage, SameSurroundings;
    ghost var b0 := buf[..];
    LeafPageBounds(b0, pageId, cells, content);
    var header := ReadPageHeader(buf[..], pageId).value;
    var numCells, pageSize := header.numCells, buf.Length;
    var start := HeaderOffset(pageId) + header.HeaderSize();
    var clearEnd := pageSize - PAGE_RESERVED_TRAILER;

    if numCells == 0 {
      header := header.(contentOffset := clearEnd, firstFreeblock := 0);
      var written := WritePageHeader(buf, pageId, header);
      NothingFilled(buf[..], start);
      if clearEnd > start {
        FillZero(buf, start, clearEnd);
      }
      EmptiedPage(b0, pageId);
      InsideKeeps(b0, buf[..], pageId);
      assert cells == [];
      return;
    }

    var copies: seq<LeafCell> := [];
    for i := 0 to numCells
      invariant copies == cells[..i]
      invariant buf[..] == b0
    {
      LeafCellRead(b0, pageId, cells, content, i);
      copies := copies + [ReadLeafCell(buf[..], pageId, i).value];
    }
    assert copies == cells;

    var clearStart := start + numCells * 2;
    NothingFilled(b0, clearStart);
    if clearEnd > clearStart {
      FillZero(buf, clearStart, clearEnd);
    }
    ClearedSlots(b0, pageId, clearStart);
    LeafPageSlots(b0, pageId, cells, content);
    RewriteCells(buf, pageId, header, copies, content);
    WithinTransitive(b0, Splice(b0, clearStart, Zeros(clearEnd - clearStart)), buf[..],
                     HeaderOffset(pageId), |b0| - PAGE_RESERVED_TRAILER);
    InsideKeeps(b0, buf[..], pageId);
  }

  lemma EmptiedPage(b: seq<byte>, pageId: PageId)
    requires LeafStart(pageId) + PAGE_RESERVED_TRAILER <= |b| < 0x1_0000
    ensures var clearEnd := |b| - PAGE_RESERVED_TRAILER;
            var b1 := Splice(b, HeaderOffset(pageId), LeafHeader(0, clearEnd).Image());
            var b2 := Splice(b1, LeafStart(pageId), Zeros(clearEnd - LeafStart(pageId)));
            CleanLeafPage(b2, pageId, []) && OnlyInside(b, b2, pageId)
  {
    hide OnlyInside, Splice, PageHeader.Image, HeaderOffset, Zeros;
    var clearEnd, start := |b| - PAGE_RESERVED_TRAILER, LeafStart(pageId);
    var h := LeafHeader(0, clearEnd).Image();
    var b1 := Splice(b, HeaderOffset(pageId), h);
    var zeros := Zeros(clearEnd - start);
    var b2 := Splice(b1, start, zeros);
    SpliceAt(b, HeaderOffset(pageId), h);
    SpliceAt(b1, start, zeros);
    SpliceElsewhere(b1, start, zeros, HeaderOffset(pageId), start);
    assert LeafImages([]) == [];
    ZeroedBetween(b2, start, clearEnd);
    EmptiedSurroundings(b, pageId);
  }

  lemma ZeroedBetween(b: seq<byte>, lo: nat, hi: nat)
    requires lo <= hi <= |b| && b[lo..hi] == Zeros(hi - lo)
    ensures ZeroBetween(b, lo, hi)
  {
    assert forall k :: lo <= k < hi ==> b[k] == b[lo..hi][k - lo];
  }

  lemma EmptiedSurroundings(b: seq<byte>, pageId: PageId)
    requires LeafStart(pageId) + PAGE_RESERVED_TRAILER <= |b| < 0x1_0000
    ensures var clearEnd := |b| - PAGE_RESERVED_TRAILER;
            var b1 := Splice(b, HeaderOffset(pageId), LeafHeader(0, clearEnd).Image());
            OnlyInside(b, Splice(b1, LeafStart(pageId), Zeros(clearEnd - LeafStart(pageId))), pageId)
  {
    hide PageHeader.Image, Zeros;
  }

  lemma ClearedSlots(b: seq<byte>, pageId: PageId, clearStart: nat)
    requires LeafStart(pageId) <= clearStart && clearStart + PAGE_RESERVED_TRAILER <= |b| < 0x1_0000
    ensures var clearEnd := |b| - PAGE_RESERVED_TRAILER;
            var b1 := Splice(b, clearStart, Zeros(clearEnd - clearStart));
            && SlotsOfCells(b1, pageId, [], clearEnd)
            && ZeroBetween(b1, clearStart, clearEnd)
            && OnlyInside(b, b1, pageId)
  {
    SpliceAt(b, clearStart, Zeros(|b| - PAGE_RESERVED_TRAILER - clearStart));
    assert LeafImages([]) == [];
  }

  // Cells that fit a page with dead space fit, one after the other, without it.
  lemma PackedPrefix(pageSize: nat, pageId: PageId, cells: seq<LeafCell>, content: nat, i: nat)
    requires AllStorable(cells) && i < |cells|
    requires LeafStart(pageId) + 2 * |cells| <= content <= PackedContent(pageSize, cells)
    ensures PackedContent(pageSize, cells[..i + 1]) == PackedContent(pageSize, cells[..i]) - cells[i].Size()
    ensures LeafStart(pageId) + 2 * |cells| <= PackedContent(pageSize, cells[..i + 1])
  {
    hide LeafCell.Image, LeafCell.Size;
    var slots := LeafImages(cells);
    assert LeafImages(cells[..i]) == slots[..i];
    assert LeafImages(cells[..i + 1]) == slots[..i + 1] == slots[..i] + [slots[i]];
    TotalConcat(slots[..i], [slots[i]]);
    TotalOne(slots[i]);
    TotalPrefix(slots, i + 1);
  }

  // Put the cells into a cleared content area, then the header.
  method RewriteCells(buf: array<byte>, pageId: PageId, h: PageHeader, cells: seq<LeafCell>, ghost content: nat)
    requires AllStorable(cells) && |cells| < 0x1_0000 && h == LeafHeader(|cells|, h.contentOffset)
    requires LeafStart(pageId) + 2 * |cells| <= content <= PackedContent(buf.Length, cells)
    requires buf.Length < 0x1_0000
    requires SlotsOfCells(buf[..], pageId, [], buf.Length - PAGE_RESERVED_TRAILER)
    requires ZeroBetween(buf[..], LeafStart(pageId) + 2 * |cells|, buf.Length - PAGE_RESERVED_TRAILER)
    modifies buf
    ensures CleanLeafPage(buf[..], pageId, cells)
    ensures OnlyInside(old(buf[..]), buf[..], pageId)
  {
    hide SlotsOfCells, Splice, OnlyWithin, PageHeader.Image, ZeroBetween, PackedContent, LeafPage, LeafImages, Total,
         LeafCell.Size;
    ghost var b0 := buf[..];
    ghost var clearStart := LeafStart(pageId) + 2 * |cells|;
    var contentOffset := buf.Length - PAGE_RESERVED_TRAILER;
    SameIsWithin(b0, HeaderOffset(pageId), |b0| - PAGE_RESERVED_TRAILER);
    PackedNothing(|b0|, cells);
    for i := 0 to |cells|
      invariant contentOffset == PackedContent(|b0|, cells[..i])
      invariant clearStart <= contentOffset <= |b0| - PAGE_RESERVED_TRAILER
      invariant SlotsOfCells(buf[..], pageId, cells[..i], contentOffset)
      invariant ZeroBetween(buf[..], clearStart, contentOffset)
      invariant OnlyInside(b0, buf[..], pageId)
    {
      ghost var b1 := buf[..];
      PackedPrefix(|b0|, pageId, cells, content, i);
      contentOffset := RewriteCell(buf, pageId, contentOffset, cells[i], i, cells[..i], clearStart);
      assert cells[..i] + [cells[i]] == cells[..i + 1];
      WithinTransitive(b0, b1, buf[..], HeaderOffset(pageId), |b0| - PAGE_RESERVED_TRAILER);
    }
    assert cells[..|cells|] == cells;
    ghost var b2 := buf[..];
    var header := h.(contentOffset := contentOffset, firstFreeblock := 0);
    var written := WritePageHeader(buf, pageId, header);
    PageFromSlots(b2, pageId, cells, contentOffset);
    HeaderKeepsZeros(b2, pageId, header, clearStart, contentOffset);
    WithinTransitive(b0, b2, buf[..], HeaderOffset(pageId), |b0| - PAGE_RESERVED_TRAILER);
  }

  lemma PackedNothing(pageSize: nat, cells: seq<LeafCell>)
    requires AllStorable(cells)
    ensures PackedContent(pageSize, cells[..0]) == pageSize - PAGE_RESERVED_TRAILER
    ensures cells[..0] == []
    ensures PackedContent(pageSize, cells) <= pageSize - PAGE_RESERVED_TRAILER
  {
  }

  lemma HeaderKeepsZeros(b: seq<byte>, pageId: PageId, h: PageHeader, lo: nat, hi: nat)
    requires HeaderOffset(pageId) + h.HeaderSize() <= lo && lo <= |b|
    requires ZeroBetween(b, lo, hi)
    ensures ZeroBetween(Splice(b, HeaderOffset(pageId), h.Image()), lo, hi)
  {
    SpliceAt(b, HeaderOffset(pageId), h.Image());
  }

  method RewriteCell(buf: array<byte>, pageId: PageId, offset: nat, c: LeafCell, i: nat, ghost done: seq<LeafCell>,
                     ghost clearStart: nat)
    returns (contentOffset: nat)
    requires SlotsOfCells(buf[..], pageId, done, offset) && c.Storable() && i == |done|
    requires LeafStart(pageId) + 2 * i + 2 <= clearStart && clearStart + c.Size() <= offset
    requires offset + PAGE_RESERVED_TRAILER <= buf.Length < 0x1_0000
    requires ZeroBetween(buf[..], clearStart, offset)
    modifies buf
    ensures contentOffset == offset - c.Size()
    ensures SlotsOfCells(buf[..], pageId, done + [c], contentOffset)
    ensures ZeroBetween(buf[..], clearStart, contentOffset)
    ensures OnlyInside(old(buf[..]), buf[..], pageId)
  {
    hide SlotsOfCells, Splice, OnlyWithin, OpenedUp, WithSlot, LeafCell.Image, LeafCell.Size, Le16, ZeroBetween;
    ghost var b := buf[..];
    var start := HeaderOffset(pageId) + 8;
    var bytes := c.ToBytes();
    contentOffset := offset - |bytes|;
    CopyInto(buf, contentOffset, bytes);
    OpenedUpAtEnd(buf[..], start, i);
    CopyInto(buf, start + i * 2, Le16(contentOffset));
    WithSlotSteps(b, start, i, offset, i, bytes);
    AddedSlots(b, pageId, done, offset, i, c);
    assert Inserted(done, i, c) == done + [c];
    SlotKeepsZeros(b, start, i, offset, bytes, clearStart);
  }

  lemma SlotKeepsZeros(b: seq<byte>, start: nat, i: nat, content: nat, s: seq<byte>, clearStart: nat)
    requires start + 2 * i + 2 <= clearStart && clearStart + |s| <= content <= |b| && content < 0x1_0000
    requires ZeroBetween(b, clearStart, content)
    ensures ZeroBetween(WithSlot(b, start, i, content, i, s), clearStart, content - |s|)
  {
    hide WithSlot;
    WithSlotBytes(b, start, i, content, i, s);
  }

  // Remove the cell with the given row id; false, and nothing changed, when there is none.
  method DeleteLeafCellFromPage(buf: array<byte>, pageId: PageId, key: u64, ghost cells: seq<LeafCell>,
                                ghost content: nat)
    returns (deleted: bool)
    requires LeafPage(buf[..], pageId, cells, content) && Ascending(RowIds(cells))
    modifies buf
    ensures deleted <==> Has(RowIds(cells), key)
    ensures !deleted ==> buf[..] == old(buf[..])
    ensures deleted ==> CleanLeafPage(buf[..], pageId, Removed(cells, Rank(RowIds(cells), key)))
    ensures SameSurroundings(old(buf[..]), buf[..], pageId)
  {
    hide LeafPage, SlotsOfCells, ClosedUp, ReadPageHeader, OnlyWithin, Splice, Ascending, CleanLeafPage,
         PageHeader.Image, Removed, RowIds, Rank, Has, PackedContent, AllStorable;
    ghost var b0 := buf[..];
    LeafPageBounds(b0, pageId, cells, content);
    var header := ReadPageHeader(buf[..], pageId).value;
    var searchRes := FindLeafCellIndexByKey(buf[..], pageId, key, cells, content);
    if searchRes.value.Absent? {
      return false;
    }
    var idx := searchRes.value.index;
    LeafPageSlots(b0, pageId, cells, content);
    ClosedUpPage(b0, pageId, cells, content, idx);
    CloseUp(buf, HeaderOffset(pageId) + header.HeaderSize(), header.numCells, idx);
    ghost var b1 := buf[..];
    header := header.(numCells := header.numCells - 1);
    var written := WritePageHeader(buf, pageId, header);
    ghost var b2 := buf[..];
    PageFromSlots(b1, pageId, Removed(cells, idx), content);
    WithinTransitive(b0, b1, b2, HeaderOffset(pageId), |b0| - PAGE_RESERVED_TRAILER);
    InsideKeeps(b0, b2, pageId);
    DefragmentLeafPage(buf, pageId, Removed(cells, idx), content);
    return true;
  }

  // Start an empty leaf page.
  method InitLeafPage(buf: array<byte>, pageId: PageId)
    requires LeafStart(pageId) + PAGE_RESERVED_TRAILER <= buf.Length < 0x1_0000
    modifies buf
    ensures LeafPage(buf[..], pageId, [], buf.Length - PAGE_RESERVED_TRAILER)
    ensures SameSurroundings(old(buf[..]), buf[..], pageId)
  {
    hide LeafPage, SlotsOfCells, Splice, OnlyWithin, PageHeader.Image;
    var header := PageHeader(TableLeaf, 0, 0, buf.Length - PAGE_RESERVED_TRAILER, 0, None);
    EmptySlots(buf[..], pageId);
    PageFromSlots(buf[..], pageId, [], buf.Length - PAGE_RESERVED_TRAILER);
    var bytes := header.ToBytes();
    CopyInto(buf, HeaderOffset(pageId), bytes);
    InsideKeeps(old(buf[..]), buf[..], pageId);
  }

  lemma EmptySlots(b: seq<byte>, pageId: PageId)
    requires LeafStart(pageId) + PAGE_RESERVED_TRAILER <= |b| < 0x1_0000
    ensures SlotsOfCells(b, pageId, [], |b| - PAGE_RESERVED_TRAILER)
  {
    assert LeafImages([]) == [];
  }
}
