// Interior page operations on raw buffers (src/btree/engine.rs).
module InteriorPages {
  import opened Wrappers
  import opened Bytes
  import opened Cells
  import opened Keyed
  import opened Slots
  import opened Pages
  import opened LeafPages

  // The cells of an interior page after cell c joined in key order, behind equal keys.
  function Joined(cells: seq<InteriorCell>, c: InteriorCell): seq<InteriorCell> {
    Inserted(cells, Above(Separators(cells), c.rowId), c)
  }

  // Free bytes of an interior page.
  function InteriorFree(pageId: PageId, n: nat, content: nat): int {
    content - (InteriorStart(pageId) + 2 * n)
  }

  lemma InteriorPageBounds(b: seq<byte>, pageId: PageId, cells: seq<InteriorCell>, right: PageId, content: nat)
    requires InteriorPage(b, pageId, cells, right, content)
    ensures |cells| < 0x1_0000 && content < 0x1_0000 && |b| < 0x1_0000
    ensures ReadPageHeader(b, pageId) == Ok(InteriorHeader(|cells|, content, right))
    ensures InteriorStart(pageId) + 2 * |cells| <= content && content + PAGE_RESERVED_TRAILER <= |b|
    ensures Slotted(b, InteriorStart(pageId), InteriorImages(cells), content)
  {
    HeaderRead(b, pageId, InteriorHeader(|cells|, content, right));
  }

  // Insert a cell; false, and nothing changed, when it does not fit.
  method InsertInteriorCellIntoPage(buf: array<byte>, pageId: PageId, c: InteriorCell,
                                    ghost cells: seq<InteriorCell>, ghost right: PageId, ghost content: nat)
    returns (ok: bool)
    requires InteriorPage(buf[..], pageId, cells, right, content)
    modifies buf
    ensures ok <==> c.Size() + 2 <= InteriorFree(pageId, |cells|, content)
    ensures !ok ==> buf[..] == old(buf[..])
    ensures ok ==> InteriorPage(buf[..], pageId, Joined(cells, c), right, content - c.Size())
    ensures SameSurroundings(old(buf[..]), buf[..], pageId)
  {
    hide InteriorPage, ReadPageHeader, ReadInteriorCell, OnlyWithin, InteriorCell.Image, InteriorCell.Size, Slotted,
         Inserted, Above, Separators, WithSlot, Splice, OpenedUp, PageHeader.Image, Le16, InteriorImages;
    ghost var b := buf[..];
    InteriorPageBounds(b, pageId, cells, right, content);
    var header := ReadPageHeader(buf[..], pageId).value;
    var cellBytes := c.ToBytes();
    var cellSize := |cellBytes|;
    var offset := HeaderOffset(pageId);
    if header.FreeSpace(buf.Length, offset) < cellSize + 2 {
      return false;
    }
    var insertIdx := FindInsertIndex(buf[..], pageId, header.numCells, c.rowId, cells, right, content);
    var contentOffset := header.ContentStart(buf.Length) - cellSize;
    CopyInto(buf, contentOffset, cellBytes);
    var start := offset + header.HeaderSize();
    OpenUp(buf, start, header.numCells, insertIdx);
    CopyInto(buf, start + insertIdx * 2, Le16(contentOffset));
    header := header.(numCells := header.numCells + 1, contentOffset := contentOffset);
    WithSlotSteps(b, start, |cells|, content, insertIdx, cellBytes);
    var written := WritePageHeader(buf, pageId, header);
    assert header == InteriorHeader(|cells| + 1, content - cellSize, right);
    AddedToInterior(b, pageId, cells, right, content, insertIdx, c);
    InsideKeeps(b, buf[..], pageId);
    return true;
  }

  // The loop that looks for the first cell with a greater row id.
  method FindInsertIndex(b: seq<byte>, pageId: PageId, numCells: u16, key: u64, ghost cells: seq<InteriorCell>,
                         ghost right: PageId, ghost content: nat)
    returns (insertIdx: nat)
    requires InteriorPage(b, pageId, cells, right, content) && numCells == |cells|
    ensures insertIdx == Above(Separators(cells), key)
  {
    hide InteriorPage, ReadInteriorCell, Above;
    ghost var keys := Separators(cells);
    insertIdx := numCells;
    for i := 0 to numCells
      invariant insertIdx == numCells
      invariant forall j :: 0 <= j < i ==> keys[j] <= key
    {
      InteriorCellRead(b, pageId, cells, right, content, i);
      var existing := ReadInteriorCell(b, pageId, i).value;
      if key < existing.rowId {
        AboveIs(keys, key, i);
        return i;
      }
    }
    AboveIs(keys, key, numCells);
  }

  lemma AddedToInterior(b: seq<byte>, pageId: PageId, cells: seq<InteriorCell>, right: PageId, content: nat,
                        idx: nat, c: InteriorCell)
    requires Slotted(b, InteriorStart(pageId), InteriorImages(cells), content) && idx <= |cells| < 0xFFFF
    requires InteriorStart(pageId) + 2 * |cells| + 2 + c.Size() <= content <= |b| && content < 0x1_0000
    ensures var b' := WithSlot(b, InteriorStart(pageId), |cells|, content, idx, c.Image());
            var b'' := Splice(b', HeaderOffset(pageId), InteriorHeader(|cells| + 1, content - c.Size(), right).Image());
            && InteriorPage(b'', pageId, Inserted(cells, idx, c), right, content - c.Size())
            && OnlyInside(b, b'', pageId)
  {
    hide Slotted, Splice, WithSlot, HeaderHolds, InteriorCell.Image, Inserted, PageHeader.Image;
    var start, slots := InteriorStart(pageId), InteriorImages(cells);
    var b' := WithSlot(b, start, |cells|, content, idx, c.Image());
    var h := InteriorHeader(|cells| + 1, content - c.Size(), right);
    SlottedBounds(b, start, slots, content);
    WithSlotSlots(b, start, slots, content, idx, c.Image());
    InsertedInteriorImages(cells, idx, c);
    WithSlotWithin(b, start, |cells|, content, idx, c.Image(), HeaderOffset(pageId), |b| - PAGE_RESERVED_TRAILER);
    SpliceWithin(b', HeaderOffset(pageId), h.Image(), HeaderOffset(pageId), |b| - PAGE_RESERVED_TRAILER);
    HeaderReplaced(b', pageId, h, Inserted(slots, idx, c.Image()), content - c.Size());
  }

  lemma InsertedInteriorImages(cells: seq<InteriorCell>, idx: nat, c: InteriorCell)
    requires idx <= |cells|
    ensures InteriorImages(Inserted(cells, idx, c)) == Inserted(InteriorImages(cells), idx, c.Image())
  {
    hide InteriorCell.Image;
  }

  // Start an interior page that only has a right child.
  method InitInteriorPage(buf: array<byte>, pageId: PageId, right: PageId)
    requires InteriorStart(pageId) + PAGE_RESERVED_TRAILER <= buf.Length < 0x1_0000
    modifies buf
    ensures InteriorPage(buf[..], pageId, [], right, buf.Length - PAGE_RESERVED_TRAILER)
    ensures SameSurroundings(old(buf[..]), buf[..], pageId)
  {
    hide HeaderHolds, Splice, PageHeader.Image;
    ghost var b := buf[..];
    var header := PageHeader(TableInterior, 0, 0, buf.Length - PAGE_RESERVED_TRAILER, 0, Some(right));
    assert InteriorImages([]) == [];
    HeaderReplaced(b, pageId, header, [], buf.Length - PAGE_RESERVED_TRAILER);
    SpliceWithin(b, HeaderOffset(pageId), header.Image(), HeaderOffset(pageId), |b| - PAGE_RESERVED_TRAILER);
    var bytes := header.ToBytes();
    CopyInto(buf, HeaderOffset(pageId), bytes);
    InsideKeeps(b, buf[..], pageId);
  }

  // Rewrite the header of an interior page with another right child.
  method SetRightChild(buf: array<byte>, pageId: PageId, newRight: PageId, ghost cells: seq<InteriorCell>,
                       ghost right: PageId, ghost content: nat)
    requires InteriorPage(buf[..], pageId, cells, right, content)
    modifies buf
    ensures InteriorPage(buf[..], pageId, cells, newRight, content)
    ensures SameSurroundings(old(buf[..]), buf[..], pageId)
  {
    hide HeaderHolds, Splice, PageHeader.Image, Slotted, ReadPageHeader;
    ghost var b := buf[..];
    InteriorPageBounds(b, pageId, cells, right, content);
    var h := ReadPageHeader(buf[..], pageId).value;
    h := h.(rightChild := Some(newRight));
    HeaderReplaced(b, pageId, h, InteriorImages(cells), content);
    SpliceWithin(b, HeaderOffset(pageId), h.Image(), HeaderOffset(pageId), |b| - PAGE_RESERVED_TRAILER);
    var written := WritePageHeader(buf, pageId, h);
    InsideKeeps(b, buf[..], pageId);
  }
}
