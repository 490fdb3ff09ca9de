// Overflow chains (src/btree/engine.rs): the part of a payload that does not fit
// its leaf cell, as a linked list of pages.
module OverflowChains {
  import opened Wrappers
  import opened Bytes
  import opened Cells
  import opened Keyed
  import opened Paging

  function Flatten(chunks: seq<seq<byte>>): seq<byte> {
    if chunks == [] then [] else Flatten(chunks[..|chunks| - 1]) + chunks[|chunks| - 1]
  }

  function MaxChunk(pageSize: nat): nat {
    if pageSize < 6 + PAGE_RESERVED_TRAILER then 0 else pageSize - (6 + PAGE_RESERVED_TRAILER)
  }

  // Next page, length and data.
  ghost predicate OverflowPage(b: seq<byte>, next: PageId, chunk: seq<byte>) {
    && 6 + |chunk| <= |b|
    && |chunk| < 0x1_0000 && |chunk| <= MaxChunk(|b|)
    && b[0..4] == Le32(next)
    && b[4..6] == Le16(|chunk|)
    && b[6..6 + |chunk|] == chunk
  }

  function NextOf(ids: seq<PageId>, i: nat): PageId {
    if i + 1 < |ids| then ids[i + 1] else 0
  }

  ghost predicate ChainHolds(pages: PageMap, c: Chain) {
    && |c.ids| == |c.chunks|
    && NoRepeats(c.ids)
    && forall i :: 0 <= i < |c.ids| ==>
      c.ids[i] > 1 && c.ids[i] in pages && OverflowPage(pages[c.ids[i]], NextOf(c.ids, i), c.chunks[i])
  }

  function FirstPage(c: Chain): PageId {
    if c.ids == [] then 0 else c.ids[0]
  }

  lemma ChainFrame(pages: PageMap, pages': PageMap, c: Chain)
    requires ChainHolds(pages, c)
    requires forall id :: id in c.ids ==> id in pages' && pages'[id] == pages[id]
    ensures ChainHolds(pages', c)
  {
  }

  // Pages needed for n bytes.
  function PagesFor(n: nat, pageSize: nat): nat
    requires MaxChunk(pageSize) > 0
  {
    if n == 0 then 0
    else if n <= MaxChunk(pageSize) then 1
    else 1 + PagesFor(n - MaxChunk(pageSize), pageSize)
  }

  // Each page but the last carries all it can: its size less 6 bytes of header and 40 of trailer.
  lemma {:induction false} PagesForRoundsUp(n: nat, pageSize: nat)
    requires pageSize > 46
    ensures n == 0 ==> PagesFor(n, pageSize) == 0
    ensures n > 0 ==>
      (PagesFor(n, pageSize) - 1) * (pageSize - 46) < n <= PagesFor(n, pageSize) * (pageSize - 46)
  {
    if n > pageSize - 46 {
      PagesForRoundsUp(n - (pageSize - 46), pageSize);
    }
  }

  lemma PagesForStep(n: nat, pageSize: nat)
    requires MaxChunk(pageSize) > 0 && n > 0
    ensures var m := if n < MaxChunk(pageSize) then n else MaxChunk(pageSize);
            PagesFor(n, pageSize) == 1 + PagesFor(n - m, pageSize)
  {
  }

  lemma NoPages(pageSize: nat)
    requires MaxChunk(pageSize) > 0
    ensures PagesFor(0, pageSize) == 0
  {
  }

  lemma WrittenPage(pageSize: nat, chunk: seq<byte>)
    requires |chunk| <= MaxChunk(pageSize) && pageSize < 0x1_0000 && pageSize >= 6 + PAGE_RESERVED_TRAILER
    ensures OverflowPage(Splice(Splice(Splice(Zeros(pageSize), 0, Le32(0)), 4, Le16(|chunk|)), 6, chunk), 0, chunk)
  {
    hide Splice, Le32, Le16, Zeros;
    var b1 := Splice(Zeros(pageSize), 0, Le32(0));
    var b2 := Splice(b1, 4, Le16(|chunk|));
    SpliceElsewhere(b1, 4, Le16(|chunk|), 0, 4);
    SpliceElsewhere(b2, 6, chunk, 0, 4);
    SpliceElsewhere(b2, 6, chunk, 4, 6);
  }

  lemma Relinked(b: seq<byte>, next: PageId, chunk: seq<byte>)
    requires OverflowPage(b, 0, chunk)
    ensures OverflowPage(Splice(b, 0, Le32(next)), next, chunk)
  {
    hide Splice, Le32, Le16;
    SpliceElsewhere(b, 0, Le32(next), 4, 6);
    SpliceElsewhere(b, 0, Le32(next), 6, 6 + |chunk|);
  }

  // A chain with one more page behind it, the last page now pointing there.
  lemma ChainExtended(pages: PageMap, pages': PageMap, c: Chain, id: PageId,
                      chunk: seq<byte>)
    requires ChainHolds(pages, c) && id > 1 && id !in c.ids
    requires id in pages' && OverflowPage(pages'[id], 0, chunk)
    requires forall x :: x in c.ids && x != c.ids[|c.ids| - 1] ==> x in pages' && pages'[x] == pages[x]
    requires c.ids != [] ==>
      var last := c.ids[|c.ids| - 1];
      last in pages' && pages'[last] == Splice(pages[last], 0, Le32(id))
    ensures ChainHolds(pages', Chain(c.ids + [id], c.chunks + [chunk]))
    ensures Flatten(c.chunks + [chunk]) == Flatten(c.chunks) + chunk
  {
    hide OverflowPage, Splice, Le32;
    var c' := Chain(c.ids + [id], c.chunks + [chunk]);
    forall i | 0 <= i < |c'.ids|
      ensures c'.ids[i] > 1 && c'.ids[i] in pages'
      ensures OverflowPage(pages'[c'.ids[i]], NextOf(c'.ids, i), c'.chunks[i])
    {
      if i < |c.ids| {
        assert OverflowPage(pages[c.ids[i]], NextOf(c.ids, i), c.chunks[i]);
        if i == |c.ids| - 1 {
          Relinked(pages[c.ids[i]], id, c.chunks[i]);
        }
      }
    }
    assert (c.chunks + [chunk])[..|c.chunks|] == c.chunks;
  }

  ghost function Ids(c: Chain): set<PageId> {
    set id | id in c.ids
  }

  // Pages in use and their contents, before and after a chain was written to fresh pages.
  ghost predicate ChainAdded(used: set<PageId>, pages: PageMap, used': set<PageId>, pages': PageMap, c: Chain) {
    && ChainHolds(pages', c)
    && Ids(c) !! used
    && used' == used + Ids(c)
    && forall id :: id in used ==> id in pages && id in pages' && pages'[id] == pages[id]
  }

  lemma ChainAddedStep(used: set<PageId>, pages: PageMap, used1: set<PageId>, pages1: PageMap, c: Chain,
                       used2: set<PageId>, pages2: PageMap, c2: Chain, id: PageId)
    requires ChainAdded(used, pages, used1, pages1, c) && ChainHolds(pages2, c2)
    requires c2.ids == c.ids + [id] && id !in used1 && used2 == used1 + {id}
    requires forall x :: x in used1 && x !in Ids(c) ==> x in pages2 && pages2[x] == pages1[x]
    ensures ChainAdded(used, pages, used2, pages2, c2)
  {
    hide ChainHolds;
    assert Ids(c2) == Ids(c) + {id};
  }

  method WriteOverflowChain(pager: Pager, data: seq<byte>) returns (head: PageId, ghost c: Chain)
    requires pager.Valid() && MaxChunk(pager.pageSize) > 0
    requires pager.Room() >= PagesFor(|data|, pager.pageSize)
    modifies pager
    ensures pager.Valid()
    ensures ChainAdded(old(pager.InUse()), old(pager.pages), pager.InUse(), pager.pages, c)
    ensures Flatten(c.chunks) == data && head == FirstPage(c)
    ensures c.ids == [] <==> data == []
    ensures pager.Room() == old(pager.Room()) - PagesFor(|data|, pager.pageSize)
  {
    hide Flatten, OverflowPage, Splice, Le32, Le16, ChainHolds, ChainAdded, PagesFor, MaxChunk, Pager.Valid,
         Pager.InUse, Pager.Room, Ids;
    pager.ValidFacts();
    ghost var used, pages := pager.InUse(), pager.pages;
    var pageSize := pager.pageSize;
    var maxChunk := MaxChunk(pageSize);
    var remaining := data;
    head := 0;
    var prev: PageId := 0;
    c := EMPTY_CHAIN;
    NothingWritten(used, pages, data);
    NoPages(pageSize);
    while remaining != []
      invariant pager.Valid() && ChainAdded(used, pages, pager.InUse(), pager.pages, c)
      invariant Flatten(c.chunks) + remaining == data
      invariant head == FirstPage(c) && prev == (if c.ids == [] then 0 else c.ids[|c.ids| - 1])
      invariant pager.Room() >= PagesFor(|remaining|, pageSize)
      invariant pager.Room() - PagesFor(|remaining|, pageSize) == old(pager.Room()) - PagesFor(|data|, pageSize)
      invariant c.ids == [] ==> remaining == data
      invariant data == [] ==> c.ids == []
      invariant head == 0 <==> c.ids == []
      decreases |remaining|
    {
      var chunkSize := if |remaining| < maxChunk then |remaining| else maxChunk;
      var chunk := remaining[..chunkSize];
      Regrouped(Flatten(c.chunks), remaining, chunkSize);
      PagesForStep(|remaining|, pageSize);
      remaining := remaining[chunkSize..];
      var curr;
      curr, c := AppendOverflowPage(pager, prev, chunk, c, used, pages);
      if head == 0 {
        head := curr;
      }
      prev := curr;
    }
  }

  lemma GrownChain(used: set<PageId>, pages: PageMap, used': set<PageId>, pages': PageMap, c: Chain)
    requires ChainAdded(used, pages, used', pages', c)
    ensures ChainHolds(pages', c) && Ids(c) <= used' && 0 !in c.ids
  {
  }

  lemma Regrouped(done: seq<byte>, rest: seq<byte>, n: nat)
    requires n <= |rest|
    ensures done + rest == (done + rest[..n]) + rest[n..]
  {
  }

  lemma NothingWritten(used: set<PageId>, pages: PageMap, data: seq<byte>)
    requires used <= pages.Keys
    ensures ChainAdded(used, pages, used, pages, EMPTY_CHAIN) && Flatten(EMPTY_CHAIN.chunks) + data == data
    ensures Flatten(EMPTY_CHAIN.chunks) + [] == []
  {
  }

  // One turn of the loop: a new page with the next piece, linked behind the previous page.
  method AppendOverflowPage(pager: Pager, prev: PageId, chunk: seq<byte>, ghost c: Chain, ghost used: set<PageId>,
                            ghost pages: PageMap)
    returns (curr: PageId, ghost c': Chain)
    requires pager.Valid() && pager.Room() > 0
    requires ChainAdded(used, pages, pager.InUse(), pager.pages, c)
    requires prev == if c.ids == [] then 0 else c.ids[|c.ids| - 1]
    requires |chunk| <= MaxChunk(pager.pageSize) && MaxChunk(pager.pageSize) > 0
    modifies pager
    ensures pager.Valid() && pager.Room() == old(pager.Room()) - 1 && curr > 0
    ensures ChainAdded(used, pages, pager.InUse(), pager.pages, c')
    ensures c' == Chain(c.ids + [curr], c.chunks + [chunk]) && Flatten(c'.chunks) == Flatten(c.chunks) + chunk
  {
    hide Flatten, OverflowPage, Splice, Le32, Le16, ChainHolds, ChainAdded, Pager.Valid, Pager.InUse, Pager.Room;
    pager.ValidFacts();
    GrownChain(used, pages, pager.InUse(), pager.pages, c);
    ChainParts(pager.pages, c);
    ghost var used1, before := pager.InUse(), pager.pages;
    curr := pager.AllocatePage();
    if prev != 0 {
      var prevRead := pager.ReadPage(prev);
      var prevBuf := prevRead.value;
      CopyInto(prevBuf, 0, Le32(curr));
      var linked := pager.WritePage(prev, prevBuf);
    }
    ghost var linkedPages := pager.pages;
    var pageBuf := NewOverflowPage(pager.pageSize, chunk);
    var written := pager.WritePage(curr, pageBuf);
    ChainExtended(before, pager.pages, c, curr, chunk);
    c' := Chain(c.ids + [curr], c.chunks + [chunk]);
    ChainAddedStep(used, pages, used1, before, c, pager.InUse(), pager.pages, c', curr);
  }

  // The buffer of the last page of a chain.
  method NewOverflowPage(pageSize: nat, chunk: seq<byte>) returns (pageBuf: array<byte>)
    requires |chunk| <= MaxChunk(pageSize) && MaxChunk(pageSize) > 0 && pageSize < 0x1_0000
    ensures fresh(pageBuf) && pageBuf.Length == pageSize && OverflowPage(pageBuf[..], 0, chunk)
  {
    hide OverflowPage, Splice, Le32, Le16;
    pageBuf := new byte[pageSize](_ => 0);
    assert pageBuf[..] == Zeros(pageSize);
    CopyInto(pageBuf, 0, Le32(0));
    CopyInto(pageBuf, 4, Le16(|chunk|));
    CopyInto(pageBuf, 6, chunk);
    WrittenPage(pageSize, chunk);
  }

  // ---- reading and freeing ----

  lemma LinkRead(pages: PageMap, c: Chain, i: nat)
    requires ChainHolds(pages, c) && i < |c.ids|
    ensures var b := pages[c.ids[i]];
            && |b| >= 6 && FromLe32(b[0..4]) == NextOf(c.ids, i)
            && FromLe16(b[4..6]) == |c.chunks[i]| <= MaxChunk(|b|)
            && 6 + |c.chunks[i]| <= |b| && b[6..6 + |c.chunks[i]|] == c.chunks[i]
  {
    assert OverflowPage(pages[c.ids[i]], NextOf(c.ids, i), c.chunks[i]);
    Le32RoundTrip(NextOf(c.ids, i));
    Le16RoundTrip(|c.chunks[i]|);
  }

  // What following the links over at most n pages brings together, on whatever these pages hold.
  function Followed(pages: PageMap, first: PageId, n: nat): Option<Result<seq<byte>>>
    decreases n
  {
    if first == 0 then Some(Ok([]))
    else if first !in pages || |pages[first]| < 6 then Some(Err(PageNotFound))
    else if n == 0 then None
    else
      var b := pages[first];
      var chunkLen := FromLe16(b[4..6]);
      if chunkLen > MaxChunk(|b|) then Some(Err(Corrupted))
      else Behind(b[6..6 + chunkLen], Followed(pages, FromLe32(b[0..4]), n - 1))
  }

  function Behind(front: seq<byte>, rest: Option<Result<seq<byte>>>): Option<Result<seq<byte>>> {
    if rest.Some? && rest.value.Ok? then Some(Ok(front + rest.value.value)) else rest
  }

  lemma BehindTwice(a: seq<byte>, b: seq<byte>, rest: Option<Result<seq<byte>>>)
    ensures Behind(a, Behind(b, rest)) == Behind(a + b, rest) && Behind([], rest) == rest
  {
    if rest.Some? && rest.value.Ok? {
      assert a + (b + rest.value.value) == (a + b) + rest.value.value && [] + rest.value.value == rest.value.value;
    }
  }

  // Follow the links and put the pieces together again.
  method ReadOverflowChain(pager: Pager, first: PageId, ghost n: nat) returns (r: Result<seq<byte>>)
    requires pager.Valid() && Followed(pager.pages, first, n).Some?
    ensures r == Followed(pager.pages, first, n).value
  {
    hide FromLe16, FromLe32, Behind, Pager.Valid;
    pager.ValidFacts();
    var out: seq<byte> := [];
    var curr := first;
    ghost var left := n;
    BehindTwice([], [], Followed(pager.pages, first, n));
    while curr > 0
      invariant Behind(out, Followed(pager.pages, curr, left)) == Followed(pager.pages, first, n)
      decreases left
    {
      var read := pager.WithPage(curr);
      if read.Err? {
        BehindAnswer(out, Followed(pager.pages, curr, left));
        return Err(read.error);
      }
      var b := read.value;
      BehindAnswer(out, Followed(pager.pages, curr, left));
      var next := FromLe32(b[0..4]);
      var chunkLen := FromLe16(b[4..6]);
      if chunkLen > MaxChunk(pager.pageSize) {
        return Err(Corrupted);
      }
      BehindTwice(out, b[6..6 + chunkLen], Followed(pager.pages, next, left - 1));
      out := out + b[6..6 + chunkLen];
      curr, left := next, left - 1;
    }
    BehindAnswer(out, Followed(pager.pages, curr, left));
    return Ok(out);
  }

  lemma BehindAnswer(front: seq<byte>, rest: Option<Result<seq<byte>>>)
    ensures rest.None? ==> Behind(front, rest).None?
    ensures rest.Some? && rest.value.Err? ==> Behind(front, rest) == rest
    ensures rest == Some(Ok([])) ==> Behind(front, rest) == Some(Ok(front))
  {
    assert front + [] == front;
  }

  // A chain gives its data back.
  lemma ChainFollowed(pages: PageMap, c: Chain)
    requires ChainHolds(pages, c)
    ensures Followed(pages, FirstPage(c), |c.ids|) == Some(Ok(Flatten(c.chunks)))
  {
    hide ChainHolds, Flatten, Followed;
    ChainParts(pages, c);
    ChainFollowedFrom(pages, c, 0);
    assert c.chunks[0..] == c.chunks;
  }

  lemma {:induction false} ChainFollowedFrom(pages: PageMap, c: Chain, i: nat)
    requires ChainHolds(pages, c) && i <= |c.ids| == |c.chunks|
    ensures Followed(pages, if i < |c.ids| then c.ids[i] else 0, |c.ids| - i) == Some(Ok(Flatten(c.chunks[i..])))
    decreases |c.ids| - i
  {
    hide ChainHolds, FromLe16, FromLe32;
    ChainParts(pages, c);
    if i < |c.ids| {
      LinkRead(pages, c, i);
      ChainFollowedFrom(pages, c, i + 1);
      assert c.chunks[i..] == [c.chunks[i]] + c.chunks[i + 1..];
      FlattenCons(c.chunks[i], c.chunks[i + 1..]);
    }
  }

  lemma {:induction false} FlattenCons(chunk: seq<byte>, chunks: seq<seq<byte>>)
    ensures Flatten([chunk] + chunks) == chunk + Flatten(chunks)
    decreases |chunks|
  {
    hide Flatten;
    if chunks == [] {
      FlattenOneMore([], chunk);
      assert [chunk] + chunks == [] + [chunk] && chunk + [] == [] + chunk == chunk;
    } else {
      var n := |chunks| - 1;
      FlattenCons(chunk, chunks[..n]);
      FlattenOneMore(chunks[..n], chunks[n]);
      FlattenOneMore([chunk] + chunks[..n], chunks[n]);
      assert [chunk] + chunks == ([chunk] + chunks[..n]) + [chunks[n]] && chunks == chunks[..n] + [chunks[n]];
      assert chunk + (Flatten(chunks[..n]) + chunks[n]) == chunk + Flatten(chunks[..n]) + chunks[n];
    }
  }

  lemma FlattenOneMore(chunks: seq<seq<byte>>, chunk: seq<byte>)
    ensures Flatten(chunks + [chunk]) == Flatten(chunks) + chunk && Flatten([]) == []
  {
    assert (chunks + [chunk])[..|chunks|] == chunks;
  }

  lemma ChainParts(pages: PageMap, c: Chain)
    requires ChainHolds(pages, c)
    ensures |c.ids| == |c.chunks| && NoRepeats(c.ids)
    ensures forall i :: 0 <= i < |c.ids| ==> c.ids[i] > 1 && c.ids[i] in pages
    ensures Flatten(c.chunks[..0]) == []
  {
  }

  // Pages in use are as before, and the pages in gone are zeroed, unless the freelist writes in them.
  ghost predicate Zeroed(pages: PageMap, pages': PageMap, gone: seq<PageId>, used': set<PageId>, trunks': set<PageId>,
                         pageSize: nat)
  {
    && pages'.Keys == pages.Keys
    && (forall id :: id in used' ==> id in pages && pages'[id] == pages[id])
    && (forall id :: id in gone && id in pages && id !in trunks' ==> pages'[id] == Zeros(pageSize))
  }

  lemma NothingZeroed(pages: PageMap, used: set<PageId>, trunks: set<PageId>, pageSize: nat)
    requires used <= pages.Keys
    ensures Zeroed(pages, pages, [], used, trunks, pageSize)
  {
  }

  lemma ZeroedOneMore(pages: PageMap, pages1: PageMap, gone: seq<PageId>, used1: set<PageId>, trunks1: set<PageId>,
                      pages2: PageMap, id: PageId, trunks2: set<PageId>, pageSize: nat)
    requires Zeroed(pages, pages1, gone, used1, trunks1, pageSize) && id in pages1
    requires pages2.Keys == pages1.Keys && trunks1 <= trunks2
    requires forall x :: x in used1 - {id} ==> pages2[x] == pages1[x]
    requires forall x :: x in pages1 && x !in trunks2 ==> pages2[x] == if x == id then Zeros(pageSize) else pages1[x]
    ensures Zeroed(pages, pages2, gone + [id], used1 - {id}, trunks2, pageSize)
  {
  }

  // Pages in use that link to one another in this order, the last one to end.
  ghost predicate Linked(pages: PageMap, ids: seq<PageId>, end: PageId) {
    && NoRepeats(ids)
    && forall i :: 0 <= i < |ids| ==>
      && ids[i] > 1 && ids[i] in pages && |pages[ids[i]]| >= 4
      && FromLe32(pages[ids[i]][0..4]) == if i + 1 < |ids| then ids[i + 1] else end
  }

  lemma ChainLinked(pages: PageMap, c: Chain)
    requires ChainHolds(pages, c)
    ensures Linked(pages, c.ids, 0)
  {
    hide FromLe32, FromLe16;
    forall i | 0 <= i < |c.ids|
      ensures |pages[c.ids[i]]| >= 4 && FromLe32(pages[c.ids[i]][0..4]) == NextOf(c.ids, i)
    {
      LinkRead(pages, c, i);
    }
  }

  // Zero the pages in link order and put them on the freelist, until the links end or lead nowhere.
  method FreeOverflowChain(pager: Pager, first: PageId, ghost ids: seq<PageId>, ghost end: PageId)
    returns (r: Result<()>)
    requires pager.Valid() && Linked(pager.pages, ids, end) && (end == 0 || end > pager.total)
    requires first == (if ids == [] then end else ids[0]) && (set id | id in ids) <= pager.InUse()
    modifies pager`pages, pager`trunk, pager`freeCount, pager`free
    ensures pager.Valid() && (r.Ok? <==> end == 0)
    ensures pager.InUse() == old(pager.InUse()) - set id | id in ids
    ensures pager.Room() == old(pager.Room()) + |ids|
    ensures pager.free == old(pager.free) + ids
    ensures Zeroed(old(pager.pages), pager.pages, ids, pager.InUse(), pager.Trunks(), pager.pageSize)
  {
    hide FromLe32, Zeroed, Zeros, NoRepeats, Linked, Pager.Valid, Pager.InUse, Pager.Room, Pager.Trunks;
    pager.ValidFacts();
    ghost var pages, used, free := pager.pages, pager.InUse(), pager.free;
    var curr := first;
    var zeroPage := new byte[pager.pageSize](_ => 0);
    assert zeroPage[..] == Zeros(pager.pageSize) by { ZerosAt(zeroPage[..], pager.pageSize); }
    ghost var i := 0;
    NothingZeroed(pages, used, pager.Trunks(), pager.pageSize);
    LinkedExist(pages, ids, end);
    while curr > 0
      invariant 0 <= i <= |ids| && curr == if i < |ids| then ids[i] else end
      invariant pager.Valid() && pager.total == old(pager.total)
      invariant pager.Room() == old(pager.Room()) + i
      invariant pager.free == free + ids[..i] && pager.InUse() == used - set id | id in ids[..i]
      invariant Zeroed(pages, pager.pages, ids[..i], pager.InUse(), pager.Trunks(), pager.pageSize)
      invariant zeroPage[..] == Zeros(pager.pageSize)
      decreases |ids| - i
    {
      pager.ValidFacts();
      var look := pager.WithPage(curr);
      if i == |ids| {
        pager.KnownPages(curr);
        SliceAll(ids);
      } else {
        LinkAt(pages, ids, end, i);
      }
      if look.Err? {
        return Err(look.error);
      }
      ghost var pages1, used1, trunks1 := pager.pages, pager.InUse(), pager.Trunks();
      StillLinked(pages, pages1, ids[..i], used1, trunks1, pager.pageSize, curr);
      var next := FreeLink(pager, curr, zeroPage);
      ZeroedOneMore(pages, pages1, ids[..i], used1, trunks1, pager.pages, curr, pager.Trunks(), pager.pageSize);
      PrefixSnoc(ids, i);
      curr := next;
      i := i + 1;
    }
    SliceAll(ids);
    return Ok(());
  }

  lemma LinkedExist(pages: PageMap, ids: seq<PageId>, end: PageId)
    requires Linked(pages, ids, end)
    ensures forall i :: 0 <= i < |ids| ==> ids[i] > 1 && ids[i] in pages
  {
  }

  lemma LinkAt(pages: PageMap, ids: seq<PageId>, end: PageId, i: nat)
    requires Linked(pages, ids, end) && i < |ids|
    ensures ids[i] > 1 && ids[i] in pages && |pages[ids[i]]| >= 4 && ids[i] !in ids[..i]
    ensures FromLe32(pages[ids[i]][0..4]) == if i + 1 < |ids| then ids[i + 1] else end
  {
    hide FromLe32;
  }

  // One turn of the loop: the next link, and the page zeroed and freed.
  method FreeLink(pager: Pager, curr: PageId, zeroPage: array<byte>) returns (next: PageId)
    requires pager.Valid() && curr in pager.InUse() && curr > 1 && 4 <= |pager.pages[curr]|
    requires zeroPage[..] == Zeros(pager.pageSize)
    modifies pager`pages, pager`trunk, pager`freeCount, pager`free
    ensures pager.Valid() && next == FromLe32(old(pager.pages)[curr][0..4])
    ensures pager.pages.Keys == old(pager.pages).Keys && pager.free == old(pager.free) + [curr]
    ensures forall x :: x in pager.InUse() ==> pager.pages[x] == old(pager.pages)[x]
    ensures old(pager.Trunks()) <= pager.Trunks()
    ensures forall x :: x in pager.pages && x !in pager.Trunks() ==>
      pager.pages[x] == if x == curr then Zeros(pager.pageSize) else old(pager.pages)[x]
    ensures pager.InUse() == old(pager.InUse()) - {curr} && pager.Room() == old(pager.Room()) + 1
  {
    hide FromLe32, Zeros, Pager.Valid, Pager.InUse, Pager.Room, Pager.Trunks;
    pager.ValidFacts();
    var read := pager.WithPage(curr);
    next := FromLe32(read.value[0..4]);
    var written := pager.WritePage(curr, zeroPage);
    var freed := pager.FreePage(curr);
  }

  lemma ZerosAt(b: seq<byte>, n: nat)
    requires |b| == n && forall i :: 0 <= i < n ==> b[i] == 0
    ensures b == Zeros(n)
  {
  }

  lemma StillLinked(pages: PageMap, pages': PageMap, gone: seq<PageId>, used': set<PageId>, trunks': set<PageId>,
                    pageSize: nat, id: PageId)
    requires Zeroed(pages, pages', gone, used', trunks', pageSize) && id in used' && used' <= pages'.Keys
    ensures id in pages && pages'[id] == pages[id]
  {
  }
}
