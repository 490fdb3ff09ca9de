// The freelist inside free pages (allocate_page and free_page of src/pager/mod.rs): trunk pages that
// name the next trunk and list further free pages, together a stack of page numbers.
module Freelist {
  import opened Bytes
  import opened Cells
  import opened Keyed

  function NextTrunk(b: seq<byte>): PageId
    requires |b| >= 8
  {
    FromLe32(b[0..4])
  }

  // How many further free pages the trunk lists.
  function SlotCount(b: seq<byte>): u32
    requires |b| >= 8
  {
    FromLe32(b[4..8])
  }

  function Slot(b: seq<byte>, i: nat): PageId
    requires 12 + 4 * i <= |b|
  {
    FromLe32(b[8 + 4 * i..12 + 4 * i])
  }

  function MaxSlots(pageSize: nat): nat {
    if pageSize < 8 then 0 else (pageSize - 8) / 4
  }

  function WithCount(b: seq<byte>, n: u32): (r: seq<byte>)
    requires |b| >= 8
    ensures |r| == |b|
  {
    Splice(b, 4, Le32(n))
  }

  // The trunk lists one more page.
  function WithSlot(b: seq<byte>, n: nat, id: PageId): (r: seq<byte>)
    requires n < MaxSlots(|b|) && n + 1 < 0x1_0000_0000
    ensures |r| == |b|
  {
    WithCount(Splice(b, 8 + 4 * n, Le32(id)), n + 1)
  }

  // A trunk that lists nothing yet.
  function TrunkPage(pageSize: nat, next: PageId): (r: seq<byte>)
    requires pageSize >= 8
    ensures |r| == pageSize
  {
    Splice(Splice(Zeros(pageSize), 0, Le32(next)), 4, Le32(0))
  }

  // The pages that the trunks list, in the order in which they were freed: those of later trunks
  // first, then the trunk itself, then what it lists.
  ghost predicate Listed(pages: PageMap, trunk: PageId, free: seq<PageId>)
    decreases |free|
  {
    if trunk == 0 then free == []
    else if trunk !in pages || |pages[trunk]| < 8 then false
    else
      var b := pages[trunk];
      var m := |free| - SlotCount(b) - 1;
      && SlotCount(b) <= MaxSlots(|b|) && m >= 0
      && free[m] == trunk && free[m + 1..] == Entries(b, SlotCount(b))
      && Listed(pages, NextTrunk(b), free[..m])
  }

  ghost function Trunks(pages: PageMap, trunk: PageId, free: seq<PageId>): set<PageId>
    decreases |free|
  {
    if trunk == 0 || trunk !in pages || |pages[trunk]| < 8 then {}
    else
      var m := |free| - SlotCount(pages[trunk]) - 1;
      {trunk} + if m < 0 then {} else Trunks(pages, NextTrunk(pages[trunk]), free[..m])
  }

  function Entries(b: seq<byte>, n: nat): (s: seq<PageId>)
    requires n <= MaxSlots(|b|)
    ensures |s| == n
  {
    seq(n, i requires 0 <= i < n => Slot(b, i))
  }

  // Only the listed pages matter.
  lemma {:induction false} ListedFrame(pages: PageMap, pages': PageMap, trunk: PageId, free: seq<PageId>)
    requires Listed(pages, trunk, free)
    requires forall id :: id in free && id in pages ==> id in pages' && pages'[id] == pages[id]
    ensures Listed(pages', trunk, free) && Trunks(pages', trunk, free) == Trunks(pages, trunk, free)
    decreases |free|
  {
    hide Entries;
    if trunk != 0 {
      var b := pages[trunk];
      var m := |free| - SlotCount(b) - 1;
      assert free[m] in free;
      ListedFrame(pages, pages', NextTrunk(b), free[..m]);
    }
  }

  // ---- the bytes of a trunk ----

  lemma CountWritten(b: seq<byte>, n: u32)
    requires |b| >= 8
    ensures SlotCount(WithCount(b, n)) == n && NextTrunk(WithCount(b, n)) == NextTrunk(b)
    ensures forall i :: 0 <= i < MaxSlots(|b|) ==> Slot(WithCount(b, n), i) == Slot(b, i)
  {
    hide Splice, Le32, FromLe32;
    Le32RoundTrip(n);
    SpliceElsewhere(b, 4, Le32(n), 0, 4);
    forall i | 0 <= i < MaxSlots(|b|) ensures Slot(WithCount(b, n), i) == Slot(b, i) {
      SpliceElsewhere(b, 4, Le32(n), 8 + 4 * i, 12 + 4 * i);
    }
  }

  lemma SlotWritten(b: seq<byte>, n: nat, id: PageId)
    requires n < MaxSlots(|b|)
    ensures var b' := Splice(b, 8 + 4 * n, Le32(id));
            && Slot(b', n) == id && NextTrunk(b') == NextTrunk(b) && SlotCount(b') == SlotCount(b)
            && forall i :: 0 <= i < n ==> Slot(b', i) == Slot(b, i)
  {
    hide Splice, Le32, FromLe32;
    Le32RoundTrip(id);
    SpliceElsewhere(b, 8 + 4 * n, Le32(id), 0, 4);
    SpliceElsewhere(b, 8 + 4 * n, Le32(id), 4, 8);
    forall i | 0 <= i < n ensures Slot(Splice(b, 8 + 4 * n, Le32(id)), i) == Slot(b, i) {
      SpliceElsewhere(b, 8 + 4 * n, Le32(id), 8 + 4 * i, 12 + 4 * i);
    }
  }

  lemma TrunkWritten(pageSize: nat, next: PageId)
    requires pageSize >= 8
    ensures SlotCount(TrunkPage(pageSize, next)) == 0 && NextTrunk(TrunkPage(pageSize, next)) == next
  {
    hide Splice, Le32, FromLe32, Zeros;
    Le32RoundTrip(next);
    Le32RoundTrip(0);
    SpliceElsewhere(Splice(Zeros(pageSize), 0, Le32(next)), 4, Le32(0), 0, 4);
  }

  // ---- the stack ----

  // Taking a page from the trunk's list.
  lemma PopSlot(pages: PageMap, trunk: PageId, free: seq<PageId>)
    requires Listed(pages, trunk, free) && NoRepeats(free) && trunk != 0 && SlotCount(pages[trunk]) > 0
    ensures var b := pages[trunk]; var n := SlotCount(b) - 1; var last := |free| - 1;
            && n < MaxSlots(|b|) && last >= 0 && free[last] == Slot(b, n) && Slot(b, n) != trunk
            && Listed(pages[trunk := WithCount(b, n)], trunk, free[..last])
  {
    hide WithCount, Slot, SlotCount, NextTrunk;
    var b := pages[trunk];
    var n, last := SlotCount(b) - 1, |free| - 1;
    var b', m := WithCount(b, n), last - n - 1;
    CountWritten(b, n);
    assert free[last] == free[m + 1..][n];
    assert free[m + 1..] == Entries(b, n + 1);
    assert free[..last][m + 1..] == free[m + 1..][..n];
    assert Entries(b, n + 1)[..n] == Entries(b', n);
    assert free[..last][..m] == free[..m];
    ListedFrame(pages, pages[trunk := b'], NextTrunk(b), free[..m]);
  }

  // Taking the trunk itself.
  lemma PopTrunk(pages: PageMap, trunk: PageId, free: seq<PageId>)
    requires Listed(pages, trunk, free) && trunk != 0 && SlotCount(pages[trunk]) == 0
    ensures var last := |free| - 1; last >= 0 && free[last] == trunk && Listed(pages, NextTrunk(pages[trunk]), free[..last])
  {
    hide SlotCount, NextTrunk, Entries;
  }

  // Listing one more page on the trunk.
  lemma PushSlot(pages: PageMap, trunk: PageId, free: seq<PageId>, id: PageId)
    requires Listed(pages, trunk, free) && NoRepeats(free) && trunk != 0 && |pages[trunk]| < 0x1_0000
    requires SlotCount(pages[trunk]) < MaxSlots(|pages[trunk]|)
    ensures var b := pages[trunk]; var pages' := pages[trunk := WithSlot(b, SlotCount(b), id)];
            && Listed(pages', trunk, free + [id]) && Trunks(pages', trunk, free + [id]) == Trunks(pages, trunk, free)
            && trunk in Trunks(pages, trunk, free)
  {
    hide WithCount, Slot, SlotCount, NextTrunk, Splice;
    var b := pages[trunk];
    var n := SlotCount(b);
    var m := |free| - n - 1;
    var b1 := Splice(b, 8 + 4 * n, Le32(id));
    SlotWritten(b, n, id);
    CountWritten(b1, n + 1);
    var b' := WithCount(b1, n + 1);
    assert (free + [id])[m + 1..] == Entries(b, n) + [id] == Entries(b', n + 1);
    assert (free + [id])[..m] == free[..m];
    ListedFrame(pages, pages[trunk := b'], NextTrunk(b), free[..m]);
  }

  // A page that becomes the trunk.
  lemma PushTrunk(pages: PageMap, trunk: PageId, free: seq<PageId>, id: PageId, pageSize: nat)
    requires Listed(pages, trunk, free) && id !in free && id != 0 && pageSize >= 8
    ensures var pages' := pages[id := TrunkPage(pageSize, trunk)];
            Listed(pages', id, free + [id]) && Trunks(pages', id, free + [id]) == {id} + Trunks(pages, trunk, free)
  {
    hide TrunkPage, SlotCount, NextTrunk;
    TrunkWritten(pageSize, trunk);
    assert (free + [id])[..|free|] == free;
    ListedFrame(pages, pages[id := TrunkPage(pageSize, trunk)], trunk, free);
  }
}
