// src/btree/mod.rs: page types, page headers and the two table cell formats.
module Cells {
  import opened Wrappers
  import opened Bytes
  import V = Varint

  type PageId = u32
  type PageMap = map<PageId, seq<byte>>

  const PAGE_RESERVED_TRAILER: nat := 40
  const MAX_SLICE: nat := 0x8000_0000_0000_0000  // no Rust slice is this long

  datatype PageType =
    | TableInterior | TableLeaf | IndexInterior | IndexLeaf | VectorIndex | Overflow | Freelist
  {
    function Code(): byte {
      match this
      case TableInterior => 1
      case TableLeaf => 2
      case IndexInterior => 3
      case IndexLeaf => 4
      case VectorIndex => 5
      case Overflow => 6
      case Freelist => 7
    }

    predicate IsInterior() {
      TableInterior? || IndexInterior?
    }
  }

  function PageTypeFromU8(b: byte): Result<PageType> {
    match b
    case 1 => Ok(TableInterior)
    case 2 => Ok(TableLeaf)
    case 3 => Ok(IndexInterior)
    case 4 => Ok(IndexLeaf)
    case 5 => Ok(VectorIndex)
    case 6 => Ok(Overflow)
    case 7 => Ok(Freelist)
    case _ => Err(Corrupted)
  }

  datatype PageHeader = PageHeader(
    pageType: PageType, flags: byte, numCells: u16, contentOffset: u16, firstFreeblock: u16,
    rightChild: Option<PageId>)
  {
    function HeaderSize(): nat {
      if pageType.IsInterior() then 12 else 8
    }

    // A header that a page can store: exactly the interior ones have a right child.
    predicate Storable() {
      rightChild.Some? <==> pageType.IsInterior()
    }

    // The stored bytes; an interior header without right child stores page 0.
    function Image(): (s: seq<byte>)
      ensures |s| == HeaderSize()
    {
      [pageType.Code(), flags] + Le16(numCells) + Le16(contentOffset) + Le16(firstFreeblock)
      + (if pageType.IsInterior() then Le32(if rightChild.Some? then rightChild.value else 0) else [])
    }

    // Where cell content starts; 0 in the field stands for the end of the usable page.
    function ContentStart(pageSize: nat): nat {
      if contentOffset == 0 then
        (if pageSize < PAGE_RESERVED_TRAILER then 0 else pageSize - PAGE_RESERVED_TRAILER)
      else contentOffset
    }

    // Unallocated bytes between the pointer array and the cell content, zero if they overlap.
    function FreeSpace(pageSize: nat, headerOffset: nat): nat {
      var pointerEnd := headerOffset + HeaderSize() + numCells * 2;
      var contentStart := ContentStart(pageSize);
      if contentStart < pointerEnd then 0 else contentStart - pointerEnd
    }

    method ToBytes() returns (buf: seq<byte>)
      ensures buf == Image()
    {
      buf := [pageType.Code()];
      buf := buf + [flags];
      buf := buf + Le16(numCells);
      buf := buf + Le16(contentOffset);
      buf := buf + Le16(firstFreeblock);
      if pageType.IsInterior() {
        var rc := match rightChild case Some(c) => c case None => 0;
        buf := buf + Le32(rc);
      }
    }
  }

  function HeaderFromBytes(s: seq<byte>): Result<PageHeader> {
    if |s| < 8 then Err(Corrupted)
    else
      match PageTypeFromU8(s[0])
      case Err(e) => Err(e)
      case Ok(t) =>
        if t.IsInterior() && |s| < 12 then Err(Corrupted)
        else Ok(PageHeader(t, s[1], FromLe16(s[2..4]), FromLe16(s[4..6]), FromLe16(s[6..8]),
                           if t.IsInterior() then Some(FromLe32(s[8..12])) else None))
  }

  // A stored header is read back whatever follows it in the page.
  lemma HeaderRoundTrip(h: PageHeader, rest: seq<byte>)
    requires h.Storable()
    ensures HeaderFromBytes(h.Image() + rest) == Ok(h)
  {
    var s := h.Image() + rest;
    assert s[2..4] == Le16(h.numCells);
    assert s[4..6] == Le16(h.contentOffset);
    assert s[6..8] == Le16(h.firstFreeblock);
    if h.pageType.IsInterior() {
      assert s[8..12] == Le32(h.rightChild.value);
      Le32RoundTrip(h.rightChild.value);
    }
  }

  // A leaf cell: row id, inline payload and the first overflow page, if any.
  datatype LeafCell = LeafCell(rowId: u64, payload: seq<byte>, overflow: Option<PageId>)
  {
    // Overflow page 0 is stored for "none", so it cannot be a pointer.
    predicate Storable() {
      |payload| < MAX_SLICE && (overflow.Some? ==> overflow.value > 0)
    }

    function OverflowField(): u32 {
      match overflow case Some(p) => p case None => 0
    }

    function Image(): (s: seq<byte>)
      requires |payload| < MAX_SLICE
      ensures |s| == Size()
    {
      V.Encoding(|payload|) + V.Encoding(rowId) + payload + Le32(OverflowField())
    }

    function Size(): (n: nat)
      requires |payload| < MAX_SLICE
      ensures n >= 6
    {
      |V.Encoding(|payload|)| + |V.Encoding(rowId)| + |payload| + 4
    }

    method ToBytes() returns (buf: seq<byte>)
      requires |payload| < MAX_SLICE
      ensures buf == Image()
    {
      var varintBuf := new byte[9](_ => 0);
      var n := V.EncodeVarint(|payload|, varintBuf);
      buf := varintBuf[..n];
      n := V.EncodeVarint(rowId, varintBuf);
      buf := buf + varintBuf[..n];
      buf := buf + payload;
      buf := buf + Le32(OverflowField());
    }
  }

  function LeafCellFromBytes(s: seq<byte>): Result<LeafCell> {
    match V.Decoded(s)
    case Err(e) => Err(e)
    case Ok((payloadSize, n1)) =>
      match V.Decoded(s[n1..])
      case Err(e) => Err(e)
      case Ok((rowId, n2)) =>
        var offset := n1 + n2;
        if |s| < offset + payloadSize + 4 then Err(Corrupted)
        else
          var page := FromLe32(s[offset + payloadSize..offset + payloadSize + 4]);
          Ok(LeafCell(rowId, s[offset..offset + payloadSize], if page > 0 then Some(page) else None))
  }

  lemma FourParts(a: seq<byte>, b: seq<byte>, c: seq<byte>, d: seq<byte>, rest: seq<byte>)
    ensures a + b + c + d + rest == a + (b + (c + d + rest))
    ensures (a + b + c + d + rest)[|a|..] == b + (c + d + rest)
    ensures (a + b + c + d + rest)[|a| + |b|..|a| + |b| + |c|] == c
    ensures (a + b + c + d + rest)[|a| + |b| + |c|..|a| + |b| + |c| + |d|] == d
  {
  }

  lemma LeafCellDecoded(c: LeafCell, rest: seq<byte>)
    requires c.Storable()
    ensures LeafCellFromBytes(c.Image() + rest) == Ok(c)
    ensures V.Decoded(c.Image() + rest) == Ok((|c.payload|, |V.Encoding(|c.payload|)|))
    ensures V.Decoded((c.Image() + rest)[|V.Encoding(|c.payload|)|..]) == Ok((c.rowId, |V.Encoding(c.rowId)|))
  {
    var lengthField, rowField, pageField :=
      V.Encoding(|c.payload|), V.Encoding(c.rowId), Le32(c.OverflowField());
    FourParts(lengthField, rowField, c.payload, pageField, rest);
    V.RoundTrip(|c.payload|, rowField + (c.payload + pageField + rest));
    V.RoundTrip(c.rowId, c.payload + pageField + rest);
    Le32RoundTrip(c.OverflowField());
  }

  // A stored leaf cell is read back from any position of a page, whatever follows it.
  lemma LeafCellRoundTrip(b: seq<byte>, at: nat, c: LeafCell)
    requires c.Storable()
    requires at + c.Size() <= |b| && b[at..at + c.Size()] == c.Image()
    ensures LeafCellFromBytes(b[at..]) == Ok(c)
    ensures V.Decoded(b[at..]) == Ok((|c.payload|, |V.Encoding(|c.payload|)|))
    ensures V.Decoded(b[at + |V.Encoding(|c.payload|)|..]) == Ok((c.rowId, |V.Encoding(c.rowId)|))
  {
    assert b[at..] == c.Image() + b[at + c.Size()..];
    LeafCellDecoded(c, b[at + c.Size()..]);
    assert b[at..][|V.Encoding(|c.payload|)|..] == b[at + |V.Encoding(|c.payload|)|..];
  }

  // The pages of an overflow chain in link order and the piece of data each one carries.
  datatype Chain = Chain(ids: seq<PageId>, chunks: seq<seq<byte>>)

  const EMPTY_CHAIN: Chain := Chain([], [])

  // An interior cell: keys at most rowId are reached through leftChild.
  datatype InteriorCell = InteriorCell(leftChild: PageId, rowId: u64)
  {
    function Image(): (s: seq<byte>)
      ensures |s| == Size()
    {
      Le32(leftChild) + V.Encoding(rowId)
    }

    function Size(): (n: nat)
      ensures 5 <= n <= 13
    {
      4 + |V.Encoding(rowId)|
    }

    method ToBytes() returns (buf: seq<byte>)
      ensures buf == Image()
    {
      buf := Le32(leftChild);
      var varintBuf := new byte[9](_ => 0);
      var n := V.EncodeVarint(rowId, varintBuf);
      buf := buf + varintBuf[..n];
    }
  }

  function InteriorCellFromBytes(s: seq<byte>): Result<InteriorCell> {
    if |s| < 4 then Err(Corrupted)
    else
      match V.Decoded(s[4..])
      case Err(e) => Err(e)
      case Ok((rowId, _)) => Ok(InteriorCell(FromLe32(s[..4]), rowId))
  }

  // A stored interior cell is read back from any position of a page, whatever follows it.
  lemma InteriorCellRoundTrip(b: seq<byte>, at: nat, c: InteriorCell)
    requires at + c.Size() <= |b| && b[at..at + c.Size()] == c.Image()
    ensures InteriorCellFromBytes(b[at..]) == Ok(c)
  {
    var s, m := b[at..], c.Image();
    assert forall k :: 0 <= k < |m| ==> s[k] == b[at..at + c.Size()][k] == m[k];
    assert s[..4] == m[..4] == Le32(c.leftChild);
    assert s[4..4 + |V.Encoding(c.rowId)|] == m[4..] == V.Encoding(c.rowId);
    V.DecodedAt(s, 4, c.rowId);
    Le32RoundTrip(c.leftChild);
  }
}
