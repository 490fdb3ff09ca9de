// The pager as the B+Tree sees it (src/pager/mod.rs): numbered pages of one size, the free ones
// listed inside trunk pages.  Caching, encryption and the write-ahead log are left to Transactions.
module Paging {
  import opened Wrappers
  import opened Bytes
  import opened Cells
  import opened Keyed
  import opened Pages
  import opened Freelist

  const LAST_PAGE: PageId := 0xFFFF_FFFF

  // The page that an allocation hands out: the one freed last, or a new one.
  ghost predicate Popped(free: seq<PageId>, total: PageId, id: PageId) {
    id == if free == [] then total + 1 else free[|free| - 1]
  }

  class Pager {
    const pageSize: nat
    var pages: PageMap
    var total: PageId
    var trunk: PageId
    var freeCount: nat
    ghost var free: seq<PageId>  // the free pages in the order in which they were freed

    ghost predicate Valid()
      reads this
    {
      && DATABASE_HEADER_SIZE < pageSize < 0x1_0000
      && total >= 1
      && (forall id: PageId :: id in pages.Keys <==> 1 <= id <= total)
      && (forall id :: id in pages ==> |pages[id]| == pageSize)
      && NoRepeats(free)
      && (forall id :: id in free ==> 1 < id <= total)
      && Listed(pages, trunk, free) && freeCount == |free|
    }

    // Pages that are neither free nor beyond the end of the file.
    ghost function InUse(): set<PageId>
      reads this
    {
      pages.Keys - set id | id in free
    }

    lemma ValidFacts()
      requires Valid()
      ensures DATABASE_HEADER_SIZE < pageSize < 0x1_0000
      ensures InUse() <= pages.Keys
      ensures NoRepeats(free)
      ensures forall id :: id in pages ==> |pages[id]| == pageSize && id >= 1
      ensures forall id :: id in InUse() ==> id !in free && 1 <= id <= total
    {
    }

    lemma KnownPages(id: PageId)
      requires Valid() && id > total
      ensures id !in pages
    {
    }

    // The free pages that list others.
    ghost function Trunks(): set<PageId>
      reads this
    {
      Freelist.Trunks(pages, trunk, free)
    }

    // How many pages can still be allocated.
    ghost function Room(): nat
      reads this
    {
      |free| + (LAST_PAGE - total)
    }

    constructor (pageSize: nat)
      requires DATABASE_HEADER_SIZE < pageSize < 0x1_0000
      ensures Valid() && this.pageSize == pageSize && total == 1 && free == [] && InUse() == {1}
    {
      this.pageSize := pageSize;
      pages := map[1 := Zeros(pageSize)];
      total, trunk, freeCount := 1, 0, 0;
      free := [];
    }

    // A copy of a page.
    method ReadPage(id: PageId) returns (r: Result<array<byte>>)
      requires Valid()
      ensures r.Ok? <==> id in pages
      ensures r.Ok? ==> fresh(r.value) && r.value[..] == pages[id]
      ensures r.Err? ==> r.error == PageNotFound
    {
      if id == 0 || id > total {
        return Err(PageNotFound);
      }
      var page := pages[id];
      var buf := new byte[pageSize](i requires 0 <= i < pageSize => page[i]);
      assert buf[..] == page;
      return Ok(buf);
    }

    // A look at a page without copying it.
    method WithPage(id: PageId) returns (r: Result<seq<byte>>)
      requires Valid()
      ensures r == if id in pages then Ok(pages[id]) else Err(PageNotFound)
    {
      if id == 0 || id > total {
        return Err(PageNotFound);
      }
      return Ok(pages[id]);
    }

    // Replace a page; the database header of page 1 stays the pager's own.
    method WritePage(id: PageId, data: array<byte>) returns (r: Result<()>)
      requires Valid()
      modifies this`pages
      ensures r.Err? || id in InUse() ==> Valid() && Trunks() == old(Trunks())
      ensures r.Ok? <==> data.Length == pageSize && id in pages
      ensures r.Ok? && id != 1 ==> pages == old(pages)[id := data[..]]
      ensures r.Ok? && id == 1 ==>
        pages == old(pages)[1 := old(pages)[1][..DATABASE_HEADER_SIZE] + data[DATABASE_HEADER_SIZE..]]
      ensures r.Err? ==> pages == old(pages)
      ensures pages.Keys == old(pages).Keys && InUse() == old(InUse()) && Room() == old(Room())
    {
      if data.Length != pageSize {
        return Err(Corrupted);
      }
      if id == 0 || id > total {
        return Err(PageNotFound);
      }
      if id == 1 {
        pages := pages[1 := pages[1][..DATABASE_HEADER_SIZE] + data[DATABASE_HEADER_SIZE..]];
      } else {
        pages := pages[id := data[..]];
      }
      if id !in free {
        ListedFrame(old(pages), pages, trunk, free);
      }
      return Ok(());
    }

    // Hand out the page freed last, or a new page behind the end of the file, zeroed.
    method AllocatePage() returns (id: PageId)
      requires Valid() && Room() > 0
      modifies this
      ensures Valid()
      ensures id !in old(InUse()) && id > 1
      ensures InUse() == old(InUse()) + {id} && Room() == old(Room()) - 1
      ensures pages.Keys == old(pages).Keys + {id} && pages[id] == Zeros(pageSize)
      ensures forall x :: x in old(InUse()) ==> pages[x] == old(pages)[x]
      ensures Popped(old(free), old(total), id) && (old(free) != [] ==> free == old(free)[..|old(free)| - 1])
    {
      hide Listed, Zeros, NoRepeats;
      FreeFacts();
      if freeCount > 0 && trunk > 0 {
        id := TakeListed();
        PoppedFree(old(free), free, id);
      } else {
        id := total + 1;
        total := id;
      }
      ListedFrame(pages, pages[id := Zeros(pageSize)], trunk, free);
      pages := pages[id := Zeros(pageSize)];
    }

    // The page that the trunk lists last, or the trunk itself, is off the freelist.
    method TakeListed() returns (id: PageId)
      requires Valid() && free != []
      modifies this`pages, this`trunk, this`freeCount, this`free
      ensures Valid() && id == old(free)[|old(free)| - 1] && free == old(free)[..|old(free)| - 1]
      ensures pages.Keys == old(pages).Keys && forall x :: x in old(InUse()) ==> pages[x] == old(pages)[x]
    {
      hide Listed, WithCount, SlotCount, Slot, NextTrunk;
      FreeFacts();
      var n := SlotCount(pages[trunk]);
      if n > 0 {
        PopSlot(pages, trunk, free);
        id := Slot(pages[trunk], n - 1);
        pages := pages[trunk := WithCount(pages[trunk], n - 1)];
      } else {
        PopTrunk(pages, trunk, free);
        id := trunk;
        trunk := NextTrunk(pages[trunk]);
      }
      freeCount := freeCount - 1;
      PoppedFree(free, free[..|free| - 1], id);
      free := free[..|free| - 1];
    }

    // Put a page on the freelist, where it may already be: then it will be handed out twice.  It is
    // listed on the trunk, or becomes the trunk when there is none or it is full.
    method FreePage(id: PageId) returns (r: Result<()>)
      requires Valid()
      modifies this`pages, this`trunk, this`freeCount, this`free
      ensures Valid() <==> r.Err? || id !in old(free)
      ensures r.Ok? <==> 1 < id <= total
      ensures r.Ok? ==> free == old(free) + [id] && InUse() == old(InUse()) - {id} && Room() == old(Room()) + 1
      ensures pages.Keys == old(pages).Keys && forall x :: x in InUse() ==> pages[x] == old(pages)[x]
      ensures r.Err? ==> free == old(free) && pages == old(pages)
      ensures id !in old(free) ==> old(Trunks()) <= Trunks() && forall x :: x in pages && x !in Trunks() ==> pages[x] == old(pages)[x]
    {
      hide Listed, Freelist.Trunks, WithSlot, TrunkPage, SlotCount;
      if id == 0 || id > total || id == 1 {
        return Err(Corrupted);
      }
      FreeFacts();
      if trunk == 0 {
        if id !in free {
          PushTrunk(pages, trunk, free, id, pageSize);
        }
        pages := pages[id := TrunkPage(pageSize, 0)];
        trunk, freeCount := id, 1;
      } else {
        var n := SlotCount(pages[trunk]);
        if n < MaxSlots(pageSize) {
          PushSlot(pages, trunk, free, id);
          pages := pages[trunk := WithSlot(pages[trunk], n, id)];
        } else {
          if id !in free {
            PushTrunk(pages, trunk, free, id, pageSize);
          }
          pages := pages[id := TrunkPage(pageSize, trunk)];
          trunk := id;
        }
        freeCount := freeCount + 1;
      }
      free := free + [id];
      assert id in old(free) ==> exists k :: 0 <= k < |old(free)| && old(free)[k] == id && free[k] == free[|old(free)|];
      return Ok(());
    }

    // The trunk is a free page, unless there is none.
    lemma FreeFacts()
      requires Valid()
      ensures trunk == 0 <==> free == []
      ensures trunk != 0 ==> trunk in free && trunk in pages && |pages[trunk]| == pageSize
      ensures Listed(pages, trunk, free) && freeCount == |free|
      ensures trunk != 0 ==> SlotCount(pages[trunk]) <= MaxSlots(pageSize)
    {
      hide Entries, SlotCount;
      if trunk != 0 {
        assert free[|free| - SlotCount(pages[trunk]) - 1] in free;
      }
    }
  }

  lemma PoppedFree(free: seq<PageId>, rest: seq<PageId>, id: PageId)
    requires NoRepeats(free) && free != [] && rest == free[..|free| - 1] && id == free[|free| - 1]
    ensures NoRepeats(rest) && id !in rest && forall x :: x in free <==> x in rest || x == id
  {
    assert free == rest + [id];
  }
}
