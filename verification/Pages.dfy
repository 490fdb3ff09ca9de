// Reading headers, pointers and cells of raw pages (src/btree/engine.rs), and
// what it means for a page buffer to hold a leaf or an interior node.
module Pages {
  import opened Wrappers
  import opened Bytes
  import opened Cells
  import opened Slots
  import V = Varint

  const DATABASE_HEADER_SIZE: nat := 100

  // Page 1 keeps the database header in front of its B+Tree header.
  function HeaderOffset(pageId: PageId): nat {
    if pageId == 1 then DATABASE_HEADER_SIZE else 0
  }

  // ---- reads; every read is total and reports malformed pages ----

  function ReadPageHeader(b: seq<byte>, pageId: PageId): Result<PageHeader> {
    var offset := HeaderOffset(pageId);
    if |b| < offset + 8 then Err(Corrupted) else HeaderFromBytes(b[offset..])
  }

  function ReadCellPointer(b: seq<byte>, pageId: PageId, idx: nat): Result<u16> {
    match ReadPageHeader(b, pageId)
    case Err(e) => Err(e)
    case Ok(h) =>
      var at := HeaderOffset(pageId) + h.HeaderSize() + idx * 2;
      if idx >= h.numCells || |b| < at + 2 then Err(Corrupted)
      else Ok(FromLe16(b[at..at + 2]))
  }

  function ReadLeafCell(b: seq<byte>, pageId: PageId, idx: nat): Result<LeafCell> {
    match ReadCellPointer(b, pageId, idx)
    case Err(e) => Err(e)
    case Ok(p) => if p >= |b| then Err(Corrupted) else LeafCellFromBytes(b[p..])
  }

  function ReadInteriorCell(b: seq<byte>, pageId: PageId, idx: nat): Result<InteriorCell> {
    match ReadCellPointer(b, pageId, idx)
    case Err(e) => Err(e)
    case Ok(p) => if p >= |b| then Err(Corrupted) else InteriorCellFromBytes(b[p..])
  }

  // The row id alone, without copying the payload.
  function ReadLeafCellRowId(b: seq<byte>, pageId: PageId, idx: nat): Result<u64> {
    match ReadCellPointer(b, pageId, idx)
    case Err(e) => Err(e)
    case Ok(p) =>
      if p >= |b| then Err(Corrupted)
      else
        match V.Decoded(b[p..])
        case Err(e) => Err(e)
        case Ok((_, n1)) =>
          if |b| - p <= n1 then Err(Corrupted)
          else
            match V.Decoded(b[p + n1..])
            case Err(e) => Err(e)
            case Ok((rowId, _)) => Ok(rowId)
  }

  // ---- what a page holds ----

  ghost predicate HeaderHolds(b: seq<byte>, pageId: PageId, h: PageHeader) {
    var offset := HeaderOffset(pageId);
    && h.Storable()
    && offset + h.HeaderSize() <= |b|
    && b[offset..offset + h.HeaderSize()] == h.Image()
  }

  lemma HeaderRead(b: seq<byte>, pageId: PageId, h: PageHeader)
    requires HeaderHolds(b, pageId, h)
    ensures ReadPageHeader(b, pageId) == Ok(h)
  {
    var offset := HeaderOffset(pageId);
    assert b[offset..] == h.Image() + b[offset + h.HeaderSize()..];
    HeaderRoundTrip(h, b[offset + h.HeaderSize()..]);
  }

  lemma PointerRead(b: seq<byte>, pageId: PageId, h: PageHeader, i: nat)
    requires HeaderHolds(b, pageId, h)
    requires i < h.numCells && HeaderOffset(pageId) + h.HeaderSize() + 2 * i + 2 <= |b|
    ensures ReadCellPointer(b, pageId, i) == Ok(Pointer(b, HeaderOffset(pageId) + h.HeaderSize(), i))
  {
    HeaderRead(b, pageId, h);
  }

  // ---- leaf pages ----

  function LeafHeader(numCells: u16, content: u16): PageHeader {
    PageHeader(TableLeaf, 0, numCells, content, 0, None)
  }

  function LeafStart(pageId: PageId): nat {
    HeaderOffset(pageId) + 8
  }

  ghost predicate AllStorable(cells: seq<LeafCell>) {
    forall i :: 0 <= i < |cells| ==> cells[i].Storable()
  }

  function LeafImages(cells: seq<LeafCell>): (s: seq<seq<byte>>)
    requires AllStorable(cells)
    ensures |s| == |cells|
    ensures forall i :: 0 <= i < |s| ==> s[i] == cells[i].Image()
  {
    seq(|cells|, i requires 0 <= i < |cells| => cells[i].Image())
  }

  function RowIds(cells: seq<LeafCell>): (s: seq<u64>)
    ensures |s| == |cells|
    ensures forall i :: 0 <= i < |s| ==> s[i] == cells[i].rowId
  {
    seq(|cells|, i requires 0 <= i < |cells| => cells[i].rowId)
  }

  // The buffer is a leaf page with these cells in pointer order, its content area
  // starting at content.  Space below the content area may be dead, never missing.
  ghost predicate LeafPage(b: seq<byte>, pageId: PageId, cells: seq<LeafCell>, content: nat) {
    && content < 0x1_0000 && |cells| < 0x1_0000
    && AllStorable(cells)
    && HeaderHolds(b, pageId, LeafHeader(|cells|, content))
    && Slotted(b, LeafStart(pageId), LeafImages(cells), content)
    && content + Total(LeafImages(cells)) + PAGE_RESERVED_TRAILER <= |b|
  }

  lemma LeafPageBounds(b: seq<byte>, pageId: PageId, cells: seq<LeafCell>, content: nat)
    requires LeafPage(b, pageId, cells, content)
    ensures |cells| < 0x1_0000 && content < 0x1_0000 && |b| < 0x1_0000
    ensures ReadPageHeader(b, pageId) == Ok(LeafHeader(|cells|, content))
    ensures LeafStart(pageId) + 2 * |cells| <= content && content + PAGE_RESERVED_TRAILER <= |b|
  {
    HeaderRead(b, pageId, LeafHeader(|cells|, content));
  }

  lemma LeafHeaderBytes(numCells: u16, content: u16)
    ensures LeafHeader(numCells, content).Image() == [2, 0] + Le16(numCells) + Le16(content) + [0, 0]
  {
  }

  lemma InteriorHeaderBytes(numCells: u16, content: u16, right: PageId)
    ensures InteriorHeader(numCells, content, right).Image()
         == [1, 0] + Le16(numCells) + Le16(content) + [0, 0] + Le32(right)
  {
  }

  lemma SlotHeld(b: seq<byte>, start: nat, slots: seq<seq<byte>>, content: nat, i: nat)
    requires Slotted(b, start, slots, content) && i < |slots|
    ensures var p := Pointer(b, start, i);
            content <= p && p + |slots[i]| + PAGE_RESERVED_TRAILER <= |b| && b[p..p + |slots[i]|] == slots[i]
  {
    assert SlotHolds(b, start, content, i, slots[i]);
  }

  // On page 1 the header of a leaf is in bytes 100 to 107 and its pointers follow from 108 on; on every
  // other page they are at the front.  Type 2 is a table leaf.
  lemma LeafLayout(b: seq<byte>, pageId: PageId, cells: seq<LeafCell>, content: nat)
    requires LeafPage(b, pageId, cells, content)
    ensures var at := if pageId == 1 then 100 else 0;
            && at + 8 + 2 * |cells| <= content <= |b| - 40
            && b[at..at + 8] == [2, 0] + Le16(|cells|) + Le16(content) + [0, 0]
            && forall i :: 0 <= i < |cells| ==>
                 var p := Pointer(b, at + 8, i);
                 && cells[i].Storable() && content <= p <= |b| - 40 - cells[i].Size()
                 && b[p..p + cells[i].Size()] == cells[i].Image()
  {
    hide Slotted, LeafCell.Image, LeafCell.Size, Total, PageHeader.Image, Pointer;
    var images := LeafImages(cells);
    LeafHeaderBytes(|cells|, content);
    SlottedBounds(b, LeafStart(pageId), images, content);
    forall i | 0 <= i < |cells|
      ensures var p := Pointer(b, LeafStart(pageId), i);
              && cells[i].Storable() && content <= p <= |b| - 40 - cells[i].Size()
              && b[p..p + cells[i].Size()] == cells[i].Image()
    {
      SlotHeld(b, LeafStart(pageId), images, content, i);
    }
  }

  lemma LeafCellRead(b: seq<byte>, pageId: PageId, cells: seq<LeafCell>, content: nat, i: nat)
    requires LeafPage(b, pageId, cells, content) && i < |cells|
    ensures ReadLeafCell(b, pageId, i) == Ok(cells[i])
    ensures ReadLeafCellRowId(b, pageId, i) == Ok(cells[i].rowId)
  {
    hide ReadCellPointer, ReadLeafCell, ReadLeafCellRowId, LeafCell.Image, Total, HeaderHolds, PageHeader.Image,
         Pointer;
    PointerRead(b, pageId, LeafHeader(|cells|, content), i);
    assert SlotHolds(b, LeafStart(pageId), content, i, LeafImages(cells)[i]);
    LeafCellReadAt(b, pageId, i, Pointer(b, LeafStart(pageId), i), cells[i]);
  }

  lemma LeafCellReadAt(b: seq<byte>, pageId: PageId, i: nat, p: u16, c: LeafCell)
    requires ReadCellPointer(b, pageId, i) == Ok(p)
    requires c.Storable() && p + c.Size() <= |b| && b[p..p + c.Size()] == c.Image()
    ensures ReadLeafCell(b, pageId, i) == Ok(c)
    ensures ReadLeafCellRowId(b, pageId, i) == Ok(c.rowId)
  {
    hide ReadCellPointer, LeafCellFromBytes, V.Decoded, V.Encoding, LeafCell.Image, LeafCell.Size;
    LeafCellRoundTrip(b, p, c);
  }

  // ---- interior pages ----

  function InteriorHeader(numCells: u16, content: u16, right: PageId): PageHeader {
    PageHeader(TableInterior, 0, numCells, content, 0, Some(right))
  }

  function InteriorStart(pageId: PageId): nat {
    HeaderOffset(pageId) + 12
  }

  function InteriorImages(cells: seq<InteriorCell>): (s: seq<seq<byte>>)
    ensures |s| == |cells|
    ensures forall i :: 0 <= i < |s| ==> s[i] == cells[i].Image()
  {
    seq(|cells|, i requires 0 <= i < |cells| => cells[i].Image())
  }

  function Separators(cells: seq<InteriorCell>): (s: seq<u64>)
    ensures |s| == |cells|
    ensures forall i :: 0 <= i < |s| ==> s[i] == cells[i].rowId
  {
    seq(|cells|, i requires 0 <= i < |cells| => cells[i].rowId)
  }

  ghost predicate InteriorPage(b: seq<byte>, pageId: PageId, cells: seq<InteriorCell>, right: PageId, content: nat) {
    && content < 0x1_0000 && |cells| < 0x1_0000
    && HeaderHolds(b, pageId, InteriorHeader(|cells|, content, right))
    && Slotted(b, InteriorStart(pageId), InteriorImages(cells), content)
  }

  // The same for interior pages, whose header of type 1 is four bytes longer and ends with the right child.
  lemma InteriorLayout(b: seq<byte>, pageId: PageId, cells: seq<InteriorCell>, right: PageId, content: nat)
    requires InteriorPage(b, pageId, cells, right, content)
    ensures var at := if pageId == 1 then 100 else 0;
            && at + 12 + 2 * |cells| <= content <= |b| - 40
            && b[at..at + 12] == [1, 0] + Le16(|cells|) + Le16(content) + [0, 0] + Le32(right)
            && forall i :: 0 <= i < |cells| ==>
                 var p := Pointer(b, at + 12, i);
                 content <= p <= |b| - 40 - cells[i].Size() && b[p..p + cells[i].Size()] == cells[i].Image()
  {
    hide Slotted, InteriorCell.Image, InteriorCell.Size, PageHeader.Image, Pointer;
    var images := InteriorImages(cells);
    InteriorHeaderBytes(|cells|, content, right);
    SlottedBounds(b, InteriorStart(pageId), images, content);
    forall i | 0 <= i < |cells|
      ensures var p := Pointer(b, InteriorStart(pageId), i);
              content <= p <= |b| - 40 - cells[i].Size() && b[p..p + cells[i].Size()] == cells[i].Image()
    {
      SlotHeld(b, InteriorStart(pageId), images, content, i);
    }
  }

  lemma InteriorCellRead(b: seq<byte>, pageId: PageId, cells: seq<InteriorCell>, right: PageId, content: nat, i: nat)
    requires InteriorPage(b, pageId, cells, right, content) && i < |cells|
    ensures ReadInteriorCell(b, pageId, i) == Ok(cells[i])
  {
    hide ReadCellPointer, InteriorCell.Image, InteriorCellFromBytes, HeaderHolds, PageHeader.Image, Pointer;
    PointerRead(b, pageId, InteriorHeader(|cells|, content, right), i);
    var p := Pointer(b, InteriorStart(pageId), i);
    assert SlotHolds(b, InteriorStart(pageId), content, i, InteriorImages(cells)[i]);
    InteriorCellRoundTrip(b, p, cells[i]);
  }
}
