// Transactions, savepoints and the page cache of the pager (src/pager/mod.rs, src/pager/wal.rs): pages
// are changed in the cache, committed to the write-ahead log, copied to the file by a checkpoint, and
// dropped from the cache when it grows too large.
module Transactions {
  import opened Wrappers
  import opened Bytes
  import opened Cells
  import opened Keyed
  import opened Paging
  import opened Freelist
  import opened UndoLogs
  import opened PageChanges
  import opened Eviction
  import S = Sessions

  // ---- the connection, with pages that can be read no more ----

  // The connection without these pages, wherever it had them.
  ghost function Lost(c: S.Connection<Snapshot>, gone: set<PageId>): S.Connection<Snapshot> {
    S.Connection(c.committed.Without(gone), if c.working.Some? then Some(c.working.value.Without(gone)) else None,
                 SavedWithout(c.saved, gone), c.broken)
  }

  lemma NothingLost(c: S.Connection<Snapshot>)
    ensures Lost(c, {}) == c
  {
    forall s: Snapshot ensures s.Without({}) == s {
      assert s.pages - {} == s.pages;
    }
  }

  lemma LostTwice(c: S.Connection<Snapshot>, a: set<PageId>, b: set<PageId>)
    ensures Lost(Lost(c, a), b) == Lost(c, a + b)
  {
    forall s: Snapshot ensures s.Without(a).Without(b) == s.Without(a + b) {
      assert s.pages - a - b == s.pages - (a + b);
    }
  }

  // What happens to a checkpoint: it is done; writing to the file stops half-way; or emptying the log fails.
  datatype Upkeep = Fine | NotWritten(written: PageMap) | NotReset

  // What is stored: the log over the file.
  function Stored(file: Option<PageMap>, wal: PageMap): PageMap {
    match file
    case Some(pages) => pages + wal
    case None => wal
  }

  lemma DirtyPages(cache: PageMap, header: Header, tx: Log, dirty: set<PageId>)
    requires dirty == set p | p in tx.dirty + {1} && 1 <= p <= header.total && p in cache
    ensures var toWrite := ToWrite(cache, header, tx);
            dirty <= cache.Keys && toWrite == (map p | p in dirty :: cache[p]) && |toWrite| == |dirty|
  {
    var toWrite := ToWrite(cache, header, tx);
    assert toWrite.Keys == dirty;
    assert |toWrite| == |toWrite.Keys|;
  }

  lemma SameMap(a: PageMap, b: PageMap)
    requires a.Keys == b.Keys && forall p :: p in a ==> a[p] == b[p]
    ensures a == b
  {
  }

  lemma StoredMore(file: Option<PageMap>, wal: PageMap, more: PageMap)
    ensures Stored(file, wal + more) == Stored(file, wal) + more
  {
    if file.Some? {
      assert file.value + (wal + more) == file.value + wal + more;
    }
  }

  // ---- the pager ----

  class PageStore {
    const pageSize: PageSize
    const capacity: nat
    const threshold: nat
    var header: Header
    var file: Option<PageMap>
    var wal: PageMap  // the latest version of each page in the write-ahead log
    var frames: nat
    var cache: PageMap
    var lru: seq<PageId>
    var tx: Option<Log>
    var named: seq<(string, Log)>
    var ioFailed: bool

    function Disk(): PageMap
      reads this
    {
      Stored(file, wal)
    }

    ghost predicate Valid()
      reads this
    {
      NoRepeats(lru) && ValidWith(cache)
    }

    // The same, were this the cache.
    ghost predicate ValidWith(c: PageMap)
      reads this
    {
      if tx.None? then named == [] && Settled(Disk(), c, header)
      else Begun(Disk(), c, header, tx.value) && Levels(c, header, tx.value, named)
    }

    // All pages of the committed database but the first are stored.
    ghost predicate Whole()
      reads this
    {
      Complete(Disk(), if tx.Some? then tx.value.header.total else header.total)
    }

    // All pages that can be read, as they are now.
    ghost function Now(): Snapshot
      reads this
    {
      SnapshotAt(Disk(), cache, [], header)
    }

    // The connection: the database as it was at the begin, as it is, and as it was at each savepoint.
    ghost function Contents(): S.Connection<Snapshot>
      reads this
    {
      ContentsWith(cache)
    }

    ghost function ContentsWith(c: PageMap): S.Connection<Snapshot>
      reads this
    {
      var now := SnapshotAt(Disk(), c, [], header);
      if tx.None? then S.Connection(now, None, [], ioFailed)
      else S.Connection(SnapshotAt(Disk(), c, [("", tx.value)], tx.value.header), Some(now), SavedAt(Disk(), c, named), false)
    }

    // Outside transactions storage holds the database: of a file every page, and otherwise every page it
    // has, the first only if it was ever written.
    lemma StorageIsCurrent()
      requires Valid() && tx.None?
      ensures forall p :: p in Now().pages && p in Disk() ==> Disk()[p] == Now().pages[p]
      ensures Whole() ==> forall p: PageId :: 1 < p <= header.total ==> p in Disk() && p in Now().pages
    {
    }

    // With the log in the cache nothing is stored, and the same can be read as before.
    lemma Emptied()
      requires Valid() && file.None?
      ensures var c := wal + cache;
              && (tx.None? ==> Settled(map[], c, header))
              && (tx.Some? ==> Begun(map[], c, header, tx.value) && Levels(c, header, tx.value, named))
              && SnapshotAt(map[], c, [], header) == Now()
              && (tx.Some? ==>
                    && SavedAt(map[], c, named) == SavedAt(Disk(), cache, named)
                    && SnapshotAt(map[], c, [("", tx.value)], tx.value.header)
                       == SnapshotAt(Disk(), cache, [("", tx.value)], tx.value.header))
    {
      hide NoRepeats, Begun, Levels, SavedAt, SnapshotAt;
      assert Disk() == wal;
      if tx.Some? {
        EmptyStorage(wal, cache, header, tx.value, named);
      }
      EmptyPresent(wal, cache, header);
    }

    // Another cache that shows the same but for the pages in gone.
    lemma Turned(c: PageMap, gone: set<PageId>)
      requires Valid()
      requires TurnsOver(Disk(), cache, c, header, if tx.Some? then tx.value.undo.Keys else {}, gone)
      requires tx.None? ==> Settled(Disk(), c, header)
      ensures ValidWith(c) && ContentsWith(c) == Lost(Contents(), gone)
      ensures SnapshotAt(Disk(), c, [], header) == Now().Without(gone)
    {
      hide NoRepeats, Begun, Levels, Settled, SavedAt, SnapshotAt, TurnsOver;
      if tx.Some? {
        TurnOver(Disk(), cache, c, header, tx.value, named, gone);
      } else {
        TurnedSnapshot(Disk(), cache, c, [], header, header, {}, gone);
        NothingSaved(gone);
      }
    }

    function Needed(): set<PageId>
      reads this
    {
      {1} + if tx.Some? then tx.value.undo.Keys + tx.value.dirty else {}
    }

    // A new database in memory.
    constructor InMemory(pageSize: PageSize, capacity: nat, threshold: nat)
      ensures Valid() && Whole() && tx.None? && !ioFailed && header == Header(1, 0, 0) && file.None?
      ensures Now().pages == map[1 := Zeros(pageSize)] && wal == map[] && frames == 0 && lru == [1]
      ensures this.pageSize == pageSize && this.capacity == capacity && this.threshold == threshold
    {
      this.pageSize, this.capacity, this.threshold := pageSize, capacity, threshold;
      header, file, wal, frames := Header(1, 0, 0), None, map[], 0;
      cache, lru := map[1 := Zeros(pageSize)], [1];
      tx, named, ioFailed := None, [], false;
    }

    // A database in memory from the bytes of its pages; order is the order in which they are cached.
    constructor FromBytes(pageSize: PageSize, threshold: nat, header: Header, pages: PageMap, order: seq<PageId>)
      requires header.total >= 1 && forall p: PageId :: p in pages <==> 1 <= p <= header.total
      requires NoRepeats(order) && forall p :: p in order <==> p in pages
      ensures Valid() && tx.None? && !ioFailed && Now() == Snapshot(header, pages)
      ensures file.None? && wal == map[] && frames == 0 && cache == pages && lru == order && capacity == 256
      ensures this.pageSize == pageSize && this.threshold == threshold && this.header == header
    {
      this.pageSize, capacity, this.threshold := pageSize, 256, threshold;
      this.header, file, wal, frames := header, None, map[], 0;
      cache, lru := pages, order;
      tx, named, ioFailed := None, [], false;
    }

    // A database in a file, its log recovered.
    constructor FromFile(pageSize: PageSize, capacity: nat, threshold: nat, header: Header, pages: PageMap)
      requires header.total >= 1 && forall p: PageId :: 1 <= p <= header.total ==> p in pages
      ensures Valid() && Whole() && tx.None? && !ioFailed && file == Some(pages) && this.header == header
      ensures wal == map[] && frames == 0 && cache == map[] && lru == []
      ensures this.pageSize == pageSize && this.capacity == capacity && this.threshold == threshold
      ensures Now() == Snapshot(header, map p: PageId | 1 <= p <= header.total :: pages[p])
    {
      this.pageSize, this.capacity, this.threshold := pageSize, capacity, threshold;
      this.header, file, wal, frames := header, Some(pages), map[], 0;
      cache, lru := map[], [];
      tx, named, ioFailed := None, [], false;
      new;
      assert pages + map[] == pages;
    }

    // Page p is the most recently used.
    method TouchLru(p: PageId)
      requires NoRepeats(lru)
      modifies this`lru
      ensures lru == Recent(old(lru), p) && NoRepeats(lru)
    {
      if |lru| > 0 && lru[|lru| - 1] == p {
        WithoutListed(lru, |lru| - 1);
        return;
      }
      WithoutOnce(lru, p);
      RemoveLru(p);
      lru := lru + [p];
    }

    method RemoveLru(p: PageId)
      requires NoRepeats(lru)
      modifies this`lru
      ensures lru == Without(old(lru), p) && NoRepeats(lru)
    {
      WithoutOnce(lru, p);
      var i := 0;
      while i < |lru| && lru[i] != p
        invariant i <= |lru| && forall j :: 0 <= j < i ==> lru[j] != p
      {
        i := i + 1;
      }
      if i < |lru| {
        WithoutListed(lru, i);
        lru := Removed(lru, i);
      } else {
        WithoutNothing(lru, p);
      }
    }

    // Drop the least recently used pages while the cache is too large, except the first page and those
    // that the transaction has changed.  Whether a dropped page is stored anywhere is not asked: those
    // in gone can be read no more.
    method EvictIfNeeded() returns (ghost gone: set<PageId>)
      requires Valid()
      modifies this`cache, this`lru
      ensures Valid() && Contents() == Lost(old(Contents()), gone)
      ensures cache == Evicted(old(lru), old(cache), Needed(), Most())
      ensures lru == StillListed(old(lru), old(cache), Needed(), Most())
      ensures gone == set p | p in old(cache) && p !in cache && 1 <= p <= header.total && p !in Disk()
      ensures Whole() ==> gone == {}
      ensures gone == {} <==> Contents() == old(Contents())
    {
      hide NoRepeats, Begun, Levels, Settled, SavedAt, SnapshotAt, Evicted, StillListed, TurnsOver, Complete;
      ghost var now := Now();
      ghost var after := Evicted(lru, cache, Needed(), Most());
      gone := set p | p in cache && p !in after && 1 <= p <= header.total && p !in Disk();
      EvictedPart(lru, cache, Needed(), Most());
      if tx.Some? {
        DroppedInside(Disk(), cache, after, header, tx.value, gone);
      } else {
        DroppedOutside(Disk(), cache, after, header, gone);
      }
      Turned(after, gone);
      NothingLost(Contents());
      CachedOrStored(Disk(), cache, header);
      DropLeastUsed();
      LostIsLess(old(Contents()), now, gone);
    }

    // A page from the cache, the log or the file; a page loaded may drive others out of the cache.
    method ReadPage(p: PageId) returns (r: Result<seq<byte>>, ghost gone: set<PageId>)
      requires Valid()
      modifies this`cache, this`lru
      ensures Valid() && Contents() == Lost(old(Contents()), gone) && Now() == old(Now()).Without(gone) && p !in gone
      ensures r.Ok? <==> !ioFailed && 1 <= p <= header.total && p in old(Now()).pages
      ensures r.Err? ==> gone == {}
      ensures r.Ok? ==> r.value == old(Now()).pages[p] && Some(r.value) == Seen(Disk(), cache, p)
      ensures Whole() ==> gone == {}
      ensures gone == {} ==> Contents() == old(Contents())
      ensures r.Err? ==> cache == old(cache) && lru == old(lru)
      ensures r.Ok? && p in old(cache) ==> cache == old(cache) && lru == Recent(old(lru), p)
      ensures r.Ok? && p !in old(cache) ==>
        cache == Evicted(Recent(old(lru), p), old(cache)[p := r.value], Needed(), Most())
    {
      hide NoRepeats, Begun, Levels, Settled, SavedAt, SnapshotAt, Evicted, TurnsOver, Complete, Recent;
      gone := {};
      NothingLost(Contents());
      NothingWithout(Now());
      SeenNow(Disk(), cache, header, p);
      if ioFailed {
        return Err(TransactionError), gone;
      }
      if p == 0 || p > header.total {
        return Err(PageNotFound), gone;
      }
      if p in cache {
        TouchLru(p);
        return Ok(cache[p]), gone;
      }
      var data;
      if p in wal {
        data := wal[p];
      } else if file.Some? && p in file.value {
        data := file.value[p];
      } else {
        return Err(PageNotFound), gone;
      }
      if tx.Some? {
        LoadedInside(Disk(), cache, header, tx.value, p);
      } else {
        LoadedOutside(Disk(), cache, header, p);
      }
      Turned(cache[p := data], {});
      cache := cache[p := data];
      TouchLru(p);
      gone := EvictIfNeeded();
      SeenNow(Disk(), cache, header, p);
      r := Ok(data);
    }

    // Change a page in the cache, after the logs have learnt what it was.
    method WritePage(p: PageId, data: seq<byte>) returns (r: Result<()>, ghost gone: set<PageId>)
      requires Valid() && tx.Some?
      modifies this`cache, this`lru, this`tx, this`named
      ensures Valid() && tx.Some? && (Whole() <==> old(Whole())) && (Whole() ==> gone == {})
      ensures r.Ok? <==>
        |data| == pageSize && 1 <= p <= header.total && (p in old(cache) || (!ioFailed && p in old(Now()).pages))
      ensures r.Ok? ==>
        var d := Written(old(Now()).Without(gone), p, data, pageSize);
        d.Some? && Now() == d.value && Contents() == Lost(old(Contents()), gone).(working := d)
      ensures r.Err? ==> Contents() == old(Contents()) && Now() == old(Now()) && gone == {}
    {
      hide NoRepeats, Begun, Levels, SavedAt, SnapshotAt, TouchedNewest, Complete;
      gone := {};
      NothingLost(Contents());
      NothingWithout(Now());
      SeenNow(Disk(), cache, header, p);
      if |data| != pageSize {
        return Err(Corrupted), gone;
      }
      if p == 0 || p > header.total {
        return Err(PageNotFound), gone;
      }
      KnownPage(Disk(), cache, header, tx.value, p);
      var before := if p in cache then Some(cache[p]) else None;
      if p !in tx.value.undo && p !in cache && p <= tx.value.header.total {
        var read;
        read, gone := ReadPage(p);
        if read.Err? {
          return Err(read.error), gone;
        }
        before := Some(read.value);
      }
      SeenNow(Disk(), cache, header, p);
      ChangePage(Disk(), cache, header, tx.value, named, p, before, data);
      Touch(p, before);
      cache := cache[p := data];
      return Ok(()), gone;
    }

    // Take the page on top of the freelist off it.
    method UnlistPage() returns (r: Result<PageId>, ghost gone: set<PageId>)
      requires Valid() && tx.Some? && header.trunk > 0
      modifies this`header, this`cache, this`lru, this`tx, this`named
      ensures Valid() && tx.Some? && header.total == old(header.total) && (Whole() <==> old(Whole())) && (Whole() ==> gone == {})
      ensures Contents().(working := None) == Lost(old(Contents()), gone).(working := None)
      ensures r.Ok? && gone == {} ==> Unlist(old(Now()), pageSize) == Some(Taken(r.value, Now()))
      ensures gone == {} && !ioFailed ==> (r.Ok? <==> Unlist(old(Now()), pageSize).Some?)
      ensures ioFailed ==> r.Err?
    {
      hide NoRepeats, Begun, Levels, SavedAt, SnapshotAt, Complete, SlotCount, Slot, WithCount, NextTrunk,
           Recent, Evicted;
      ghost var c := Contents();
      var read;
      NothingLost(c);
      NothingWithout(Now());
      read, gone := ReadPage(header.trunk);
      if read.Err? {
        return Err(read.error), gone;
      }
      var b := read.value;
      if |b| != pageSize {
        return Err(Corrupted), gone;
      }
      var n := SlotCount(b);
      if n > MaxSlots(pageSize) {
        return Err(Corrupted), gone;
      }
      var id, next := header.trunk, NextTrunk(b);
      if n > 0 {
        id, next := Slot(b, n - 1), header.trunk;
        ghost var g;
        var written;
        written, g := WritePage(header.trunk, WithCount(b, n - 1));
        LostTwice(c, gone, g);
        gone := gone + g;
      }
      SetFreelist(next, if header.freeCount > 0 then header.freeCount - 1 else 0);
      r := Ok(id);
    }

    method AllocatePage() returns (r: Result<PageId>, ghost gone: set<PageId>)
      requires Valid() && tx.Some? && header.total < LAST_PAGE
      modifies this`header, this`cache, this`lru, this`tx, this`named
      ensures Valid() && tx.Some? && (Whole() <==> old(Whole())) && (Whole() ==> gone == {})
      ensures old(header.total) <= header.total <= old(header.total) + 1
      ensures Contents().(working := None) == Lost(old(Contents()), gone).(working := None)
      ensures r.Ok? && gone == {} ==> Take(old(Now()), pageSize) == Some(Taken(r.value, Now()))
      ensures gone == {} && !ioFailed ==> (r.Ok? <==> Take(old(Now()), pageSize).Some?)
      ensures ioFailed ==> (r.Ok? <==> !(old(header).freeCount > 0 && old(header).trunk > 0))
    {
      hide NoRepeats, Begun, Levels, SavedAt, SnapshotAt, Complete, Take, TurnsOver, Evicted;
      ghost var c := Contents();
      if header.freeCount > 0 && header.trunk > 0 {
        r, gone := ReusePage();
        if r.Err? {
          return;
        }
      } else {
        NothingLost(c);
        gone := {};
        var id := AddNewPage();
        r := Ok(id);
      }
      ghost var now := Now();
      NothingWithout(now);
      ghost var g := EvictIfNeeded();
      LostTwice(c, gone, g);
      gone := gone + g;
    }

    // A page of the freelist, zeroed.
    method ReusePage() returns (r: Result<PageId>, ghost gone: set<PageId>)
      requires Valid() && tx.Some? && header.freeCount > 0 && header.trunk > 0
      modifies this`header, this`cache, this`lru, this`tx, this`named
      ensures Valid() && tx.Some? && header.total == old(header.total) && (Whole() <==> old(Whole())) && (Whole() ==> gone == {})
      ensures Contents().(working := None) == Lost(old(Contents()), gone).(working := None)
      ensures r.Ok? && gone == {} ==> Take(old(Now()), pageSize) == Some(Taken(r.value, Now()))
      ensures gone == {} && !ioFailed ==> (r.Ok? <==> Take(old(Now()), pageSize).Some?)
      ensures ioFailed ==> r.Err?
    {
      hide NoRepeats, Begun, Levels, SavedAt, SnapshotAt, Complete, Unlist;
      ghost var c := Contents();
      NothingWithout(Now());
      r, gone := UnlistPage();
      if r.Err? {
        return;
      }
      ghost var before := Now();
      NothingWithout(before);
      var read;
      ghost var g;
      read, g := ReadPage(r.value);
      LostTwice(c, gone, g);
      gone := gone + g;
      if read.Err? {
        return Err(read.error), gone;
      }
      ZeroPage(r.value, Some(read.value));
    }

    // A page behind the last one.
    method AddNewPage() returns (id: PageId)
      requires Valid() && tx.Some? && header.total < LAST_PAGE && !(header.freeCount > 0 && header.trunk > 0)
      modifies this`header, this`cache, this`lru, this`tx, this`named
      ensures Valid() && tx.Some? && id == header.total == old(header.total) + 1 && (Whole() <==> old(Whole()))
      ensures Take(old(Now()), pageSize) == Some(Taken(id, Now())) && lru == Recent(old(lru), id)
      ensures Contents() == old(Contents()).(working := Some(Now()))
    {
      hide NoRepeats, Begun, Levels, SavedAt, SnapshotAt, Complete, Touched, TouchedNewest;
      AddPage(Disk(), cache, header, tx.value, named, Zeros(pageSize));
      id := header.total + 1;
      header := header.(total := id);
      Touch(id, None);
      cache := cache[id := Zeros(pageSize)];
      TouchLru(id);
    }

    // A page that was read is noted and zeroed.
    method ZeroPage(p: PageId, before: Option<seq<byte>>)
      requires Valid() && tx.Some? && 1 <= p <= header.total && before == Seen(Disk(), cache, p) && before.Some?
      modifies this`cache, this`lru, this`tx, this`named
      ensures Valid() && tx.Some? && tx.value.header == old(tx.value.header)
      ensures Now() == Snapshot(header, old(Now()).pages[p := Zeros(pageSize)]) && lru == Recent(old(lru), p)
      ensures Contents() == old(Contents()).(working := Some(Now()))
    {
      hide NoRepeats, Begun, Levels, SavedAt, SnapshotAt, Touched, TouchedNewest;
      ChangePage(Disk(), cache, header, tx.value, named, p, before, Zeros(pageSize));
      Touch(p, before);
      cache := cache[p := Zeros(pageSize)];
      TouchLru(p);
    }

    // Put a page on the freelist.
    method FreePage(p: PageId) returns (r: Result<()>, ghost gone: set<PageId>)
      requires Valid() && tx.Some?
      modifies this`header, this`cache, this`lru, this`tx, this`named
      ensures Valid() && tx.Some? && header.total == old(header.total) && (Whole() <==> old(Whole())) && (Whole() ==> gone == {})
      ensures Contents().(working := None) == Lost(old(Contents()), gone).(working := None)
      ensures r.Ok? && gone == {} ==> Give(old(Now()), p, pageSize) == Some(Now())
      ensures gone == {} && !ioFailed ==> (r.Ok? <==> Give(old(Now()), p, pageSize).Some?)
      ensures ioFailed ==> (r.Ok? <==> 1 < p <= header.total && old(header).trunk == 0 && p in old(cache))
    {
      hide NoRepeats, Begun, Levels, SavedAt, SnapshotAt, Complete, TrunkPage;
      ghost var c := Contents();
      NothingLost(c);
      NothingWithout(Now());
      gone := {};
      if p == 0 || p > header.total || p == 1 {
        return Err(Corrupted), gone;
      }
      if header.trunk != 0 {
        r, gone := ListPage(p);
        return;
      }
      r, gone := WritePage(p, TrunkPage(pageSize, 0));
      assert Contents().(working := None) == Lost(c, gone).(working := None);
      if r.Ok? {
        SetFreelist(p, 1);
      }
    }

    // List a page on the trunk, or make it the trunk when that is full.
    method ListPage(p: PageId) returns (r: Result<()>, ghost gone: set<PageId>)
      requires Valid() && tx.Some? && 1 < p <= header.total && header.trunk != 0
      modifies this`header, this`cache, this`lru, this`tx, this`named
      ensures Valid() && tx.Some? && header.total == old(header.total) && (Whole() <==> old(Whole())) && (Whole() ==> gone == {})
      ensures Contents().(working := None) == Lost(old(Contents()), gone).(working := None)
      ensures r.Ok? && gone == {} ==> Give(old(Now()), p, pageSize) == Some(Now())
      ensures gone == {} && !ioFailed ==> (r.Ok? <==> Give(old(Now()), p, pageSize).Some?)
      ensures ioFailed ==> r.Err?
    {
      hide NoRepeats, Begun, Levels, SavedAt, SnapshotAt, Complete, TrunkPage, WithSlot, SlotCount;
      ghost var c := Contents();
      NothingLost(c);
      NothingWithout(Now());
      var read;
      read, gone := ReadPage(header.trunk);
      if read.Err? {
        return Err(read.error), gone;
      }
      var b := read.value;
      if |b| != pageSize {
        return Err(Corrupted), gone;
      }
      var n, top := SlotCount(b), header.trunk;
      ghost var g;
      if n < MaxSlots(pageSize) {
        r, g := WritePage(top, WithSlot(b, n, p));
      } else {
        top := p;
        r, g := WritePage(p, TrunkPage(pageSize, header.trunk));
      }
      if r.Err? {
        return;
      }
      LostTwice(c, gone, g);
      gone := gone + g;
      SetFreelist(top, header.freeCount + 1);
    }

    method SetFreelist(trunk: PageId, freeCount: nat)
      requires Valid() && tx.Some?
      modifies this`header
      ensures Valid() && header == old(header).(trunk := trunk, freeCount := freeCount)
      ensures Now() == Snapshot(header, old(Now()).pages) && Contents() == old(Contents()).(working := Some(Now()))
      ensures Whole() <==> old(Whole())
    {
      hide NoRepeats, Begun, Levels, SavedAt, SnapshotAt, Complete;
      var header' := header.(trunk := trunk, freeCount := freeCount);
      SameTotal(Disk(), cache, header, header', tx.value, named);
      header := header';
    }

    // First change of a page: the transaction's log and the newest savepoint's note what it was.
    method Touch(p: PageId, before: Option<seq<byte>>)
      requires tx.Some?
      modifies this`tx, this`named
      ensures tx == Some(Touched(old(tx.value), p, before)) && named == TouchedNewest(old(named), p, before)
      ensures tx.value.header == old(tx.value.header)
    {
      var sp := tx.value;
      if p !in sp.undo {
        sp := sp.(undo := sp.undo[p := before]);
      }
      tx := Some(sp.(dirty := sp.dirty + {p}));
      if |named| > 0 {
        var n := |named| - 1;
        var (name, newest) := named[n];
        if p !in newest.undo {
          newest := newest.(undo := newest.undo[p := before]);
        }
        named := named[..n] + [(name, newest.(dirty := newest.dirty + {p}))];
      }
    }

    method Begin() returns (ok: bool)
      requires Valid()
      modifies this`tx
      ensures Valid() && (Contents(), ok) == old(Contents()).Execute(S.Begin, true)
      ensures ok ==> tx == Some(Log(header, map[], {})) && (Whole() <==> old(Whole()))
      ensures !ok ==> tx == old(tx)
    {
      hide NoRepeats, Begun, Levels, SnapshotAt, Settled, Complete;
      if ioFailed || tx.Some? {
        return false;
      }
      BeginBegun(Disk(), cache, header);
      NothingSavedYet(Disk(), cache);
      tx := Some(Log(header, map[], {}));
      return true;
    }

    // Copy the log to the file, or into the cache when there is no file, and empty it.  What fails
    // leaves the log as it is.
    method Checkpoint(upkeep: Upkeep) returns (ok: bool)
      requires Valid()
      modifies this`file, this`wal, this`frames, this`cache, this`ioFailed
      ensures Valid() && Contents() == old(Contents()).(broken := tx.None? && ioFailed)
      ensures ok <==> !old(ioFailed) && (old(wal) == map[] || file.None? || upkeep.Fine?)
      ensures ioFailed <==> old(ioFailed) || (old(wal) != map[] && file.Some? && upkeep.NotReset?)
      ensures (file.Some? <==> old(file).Some?) && (file.Some? ==> Disk() == old(Disk()))
      ensures if ok then wal == map[] else wal == old(wal) && frames == old(frames)
      ensures ok && file.Some? ==> file.value == old(file).value + old(wal)
      ensures ok && old(wal) != map[] ==> frames == 0 && (file.None? ==> cache == old(wal) + old(cache))
      ensures !(ok && file.None? && old(wal) != map[]) ==> cache == old(cache)
    {
      hide NoRepeats, Begun, Levels, SnapshotAt, Settled, SavedAt, TurnsOver;
      if ioFailed {
        return false;
      }
      if wal == map[] {
        return true;
      }
      match file {
        case Some(pages) =>
          if upkeep.NotWritten? {
            var written := map p | p in upkeep.written && p in wal :: upkeep.written[p];
            assert pages + written + wal == pages + wal;
            file := Some(pages + written);
            return false;
          }
          assert pages + wal + map[] == pages + wal && pages + wal + wal == pages + wal;
          file := Some(pages + wal);
          if upkeep.NotReset? {
            ioFailed := true;
            return false;
          }
        case None =>
          Emptied();
          KeepFromLog();
      }
      wal, frames := map[], 0;
      return true;
    }

    // Pages of the log that are not cached go into the cache.
    method KeepFromLog()
      modifies this`cache
      ensures cache == wal + old(cache)
    {
      var left := wal.Keys;
      while left != {}
        invariant left <= wal.Keys
        invariant cache == (map p | p in wal.Keys - left :: wal[p]) + old(cache)
      {
        var p :| p in left;
        if p !in cache {
          cache := cache[p := wal[p]];
        }
        left := left - {p};
      }
      assert (map p | p in wal.Keys - {} :: wal[p]) == wal;
    }

    // Write the changed pages; recovered tells whether a write that failed half-way could be taken back.
    // Once they are written, the log may be copied to the file and the cache made smaller.
    method CommitTransaction(io: bool, recovered: bool, upkeep: Upkeep) returns (ok: bool, ghost gone: set<PageId>)
      requires Valid()
      modifies this
      ensures Valid() && (file.Some? <==> old(file).Some?)
      ensures var (c, done) := old(Contents()).Execute(S.Commit, io && !old(ioFailed));
              ok == done && Contents() == if ok then Lost(c.(broken := ioFailed), gone) else c
      ensures ok ==> tx.None? && gone == set p | p in old(Now()).pages && p !in cache && p !in Disk()
      ensures ok && old(Whole()) && (file.Some? || wal != map[]) ==> Whole() && gone == {}
      ensures !ok ==> tx == old(tx) && wal == old(wal) && (Whole() <==> old(Whole()))
      ensures !ok ==> ioFailed == if tx.None? then old(ioFailed) else !recovered
      ensures ok ==>
        var toWrite := ToWrite(old(cache), header, old(tx.value));
        var (log, logged) := (old(wal) + toWrite, old(frames) + |toWrite|);
        && (ioFailed <==> file.Some? && logged >= threshold && log != map[] && upkeep.NotReset?)
        && (ioFailed <==> ResetFailed(upkeep))
        && (file.Some? ==> Disk() == old(Disk()) + toWrite)
        && (file.Some? && logged >= threshold && upkeep.Fine? ==> wal == map[] && file.value == old(file).value + log)
        && (logged < threshold ==> wal == log && cache == Evicted(old(lru), old(cache), {1}, Most()))
    {
      hide NoRepeats, Begun, Levels, SnapshotAt, Settled, ToWrite, SavedAt, Complete, Evicted;
      gone := {};
      if tx.None? {
        return false, gone;
      }
      if ioFailed || !io {
        ioFailed := !recovered;
        return false, gone;
      }
      CommitWritten();
      gone := Maintain(upkeep);
      ok := true;
    }

    // The changed pages are in the log: the transaction is over.
    method CommitWritten()
      requires Valid() && tx.Some? && !ioFailed
      modifies this`wal, this`frames, this`tx, this`named
      ensures Valid() && tx.None? && Now() == old(Now())
      ensures Contents() == S.Connection(old(Now()), None, [], false)
      ensures var toWrite := ToWrite(cache, header, old(tx.value));
              wal == old(wal) + toWrite && Disk() == old(Disk()) + toWrite && frames == old(frames) + |toWrite|
      ensures old(Whole()) ==> Whole()
    {
      hide NoRepeats, Begun, Levels, SnapshotAt, Settled, ToWrite, SavedAt, Complete;
      CommitSettles(Disk(), cache, header, tx.value);
      WriteFrames();
      tx, named := None, [];
    }

    // The log was long enough for a checkpoint, which copied it to the file and could not empty it.
    predicate ResetFailed(upkeep: Upkeep)
      reads this
    {
      file.Some? && frames >= threshold && wal != map[] && upkeep.NotReset?
    }

    // After a commit: a checkpoint when the log is long, and a smaller cache.
    method Maintain(upkeep: Upkeep) returns (ghost gone: set<PageId>)
      requires Valid() && tx.None?
      modifies this`file, this`wal, this`frames, this`cache, this`lru, this`ioFailed
      ensures Valid() && (file.Some? <==> old(file).Some?)
      ensures Contents() == Lost(old(Contents()).(broken := ioFailed), gone)
      ensures ioFailed <==>
        old(ioFailed) || (file.Some? && old(frames) >= threshold && old(wal) != map[] && upkeep.NotReset?)
      ensures !old(ioFailed) ==> (ioFailed <==> ResetFailed(upkeep))
      ensures gone == set p | p in old(Now()).pages && p !in cache && p !in Disk()
      ensures old(Whole()) && (file.Some? || wal != map[]) ==> Whole() && gone == {}
      ensures file.Some? ==> Disk() == old(Disk())
      ensures !old(ioFailed) && old(frames) >= threshold && upkeep.Fine? ==>
        wal == map[] && (file.Some? ==> file.value == old(file).value + old(wal))
      ensures old(frames) < threshold ==> wal == old(wal) && cache == Evicted(old(lru), old(cache), {1}, Most())
    {
      hide NoRepeats, Settled, SnapshotAt, SavedAt, Evicted, StillListed, Complete, Lost;
      if frames >= threshold {
        var done := Checkpoint(upkeep);
      }
      CachedOrStored(Disk(), cache, header);
      assert Needed() == {1};
      gone := EvictIfNeeded();
    }

    method WriteFrames()
      requires tx.Some?
      modifies this`wal, this`frames
      ensures wal == old(wal) + ToWrite(cache, header, tx.value) && Disk() == old(Disk()) + ToWrite(cache, header, tx.value)
      ensures frames == old(frames) + |ToWrite(cache, header, tx.value)|
    {
      hide ToWrite;
      ghost var toWrite := ToWrite(cache, header, tx.value);
      var dirty := set p | p in tx.value.dirty + {1} && 1 <= p <= header.total && p in cache;
      DirtyPages(cache, header, tx.value, dirty);
      AppendFrames(dirty, toWrite);
      StoredMore(file, old(wal), toWrite);
    }

    // One frame for each of these pages.
    method AppendFrames(dirty: set<PageId>, ghost toWrite: PageMap)
      requires dirty <= cache.Keys && toWrite == map p | p in dirty :: cache[p]
      modifies this`wal, this`frames
      ensures wal == old(wal) + toWrite && frames == old(frames) + |dirty|
    {
      var left := dirty;
      ghost var done: PageMap := map[];
      while left != {}
        invariant left <= dirty && done.Keys == dirty - left
        invariant forall q :: q in done ==> done[q] == toWrite[q]
        invariant wal == old(wal) + done && frames + |left| == old(frames) + |dirty|
      {
        var p :| p in left;
        wal, frames := wal[p := cache[p]], frames + 1;
        left, done := left - {p}, done[p := cache[p]];
      }
      SameMap(done, toWrite);
    }

    // Put the pages of a log back into the cache.
    method Restore(undo: map<PageId, Option<seq<byte>>>)
      requires NoRepeats(lru)
      modifies this`cache, this`lru
      ensures NoRepeats(lru) && cache == Restored(old(cache), undo)
    {
      hide Restored;
      var left := undo.Keys;
      ghost var done := map[];
      NothingRestored(cache);
      while left != {}
        invariant left <= undo.Keys && done.Keys == undo.Keys - left && forall q :: q in done ==> done[q] == undo[q]
        invariant cache == Restored(old(cache), done) && NoRepeats(lru)
      {
        var p :| p in left;
        RestoredOneMore(old(cache), done, p, undo[p]);
        match undo[p] {
          case Some(before) =>
            cache := cache[p := before];
            TouchLru(p);
          case None =>
            cache := cache - {p};
            RemoveLru(p);
        }
        left, done := left - {p}, done[p := undo[p]];
      }
      assert done == undo;
    }

    method RollbackTransaction(io: bool) returns (ok: bool)
      requires Valid()
      modifies this
      ensures Valid() && (Contents(), ok) == old(Contents()).Execute(S.Rollback, io)
      ensures tx.None? && (Whole() <==> old(Whole())) && file == old(file)
      ensures ioFailed == if old(tx).None? then old(ioFailed) else !io
    {
      hide NoRepeats, Begun, Levels, SnapshotAt, Settled, SavedAt, Restored, Complete;
      if tx.None? {
        return false;
      }
      UndoAll(Disk(), cache, header, tx.value);
      Restore(tx.value.undo);
      header := tx.value.header;
      tx, named, ioFailed := None, [], !io;
      return io;
    }

    method CreateSavepoint(name: string) returns (ok: bool)
      requires Valid()
      modifies this`tx, this`named
      ensures Valid() && (Contents(), ok) == old(Contents()).Execute(S.Savepoint(name), true)
      ensures ok ==> tx.Some? && (old(tx).Some? ==> tx == old(tx)) && (Whole() <==> old(Whole()))
    {
      hide NoRepeats, Begun, Levels, SnapshotAt, Settled, SavedAt, Complete;
      if tx.None? {
        ok := Begin();
        if !ok {
          return;
        }
        NothingSavedYet(Disk(), cache);
        assert [] + [(name, Now())] == [(name, Now())];
      }
      PushLevel(Disk(), cache, header, tx.value, named, name);
      named := named + [(name, Log(header, map[], {}))];
      return true;
    }

    // Undo the savepoints from the newest down to the one named, then create it anew.
    method RollbackToSavepoint(name: string, io: bool) returns (ok: bool)
      requires Valid()
      modifies this
      ensures Valid() && (Contents(), ok) == old(Contents()).Execute(S.RollbackTo(name), io)
      ensures tx == old(tx) && file == old(file) && wal == old(wal) && (Whole() <==> old(Whole()))
      ensures ioFailed == if S.Position(old(named), name).None? then old(ioFailed) else !io
    {
      hide NoRepeats, Begun, Levels, SnapshotAt, Settled, SavedAt, S.Position, Complete;
      ghost var c := Contents();
      SavedNames(Disk(), cache, named);
      S.SamePosition(named, SavedAt(Disk(), cache, named), name);
      S.NothingNamed<Snapshot>([], name);
      var idx := S.Position(named, name);
      if idx.None? {
        return false;
      }
      ghost var n := |named|;
      while |named| > idx.value
        invariant idx.value <= |named| <= n && tx == old(tx) && tx.Some? && Valid() && |c.saved| == n
        invariant file == old(file) && wal == old(wal)
        invariant Contents() == c.(working := if |named| < n then Some(c.saved[|named|].1) else c.working,
                                   saved := c.saved[..|named|])
        invariant if |named| < n then io && !ioFailed else ioFailed == old(ioFailed)
      {
        assert c.saved[..|named|][..|named| - 1] == c.saved[..|named| - 1];
        PopSavepoint(io);
        if !io {
          return false;
        }
      }
      ok := CreateSavepoint(name);
    }

    // Undo the newest savepoint; truncating the log comes last and may fail.
    method PopSavepoint(io: bool)
      requires Valid() && tx.Some? && |named| > 0
      modifies this
      ensures file == old(file) && wal == old(wal) && ioFailed == !io
      ensures Valid() && tx == old(tx) && named == old(named)[..|old(named)| - 1] && |old(Contents()).saved| == |old(named)|
      ensures var c := old(Contents()); var n := |c.saved| - 1;
              Contents() == c.(working := Some(c.saved[n].1), saved := c.saved[..n])
    {
      hide NoRepeats, Begun, Levels, SnapshotAt, Settled, Restored;
      PopLevel(Disk(), cache, header, tx.value, named);
      var sp := named[|named| - 1].1;
      named := named[..|named| - 1];
      Restore(sp.undo);
      header := sp.header;
      ioFailed := !io;
    }

    method ReleaseSavepoint(name: string) returns (ok: bool)
      requires Valid()
      modifies this`named
      ensures Valid() && (Contents(), ok) == old(Contents()).Execute(S.Release(name), true)
    {
      hide NoRepeats, Begun, Levels, SnapshotAt, Settled, SavedAt, S.Position, Kept, Merged;
      SavedNames(Disk(), cache, named);
      S.SamePosition(named, SavedAt(Disk(), cache, named), name);
      S.NothingNamed<Snapshot>([], name);
      S.NothingNamed<Log>([], name);
      var idx := S.Position(named, name);
      if idx.None? {
        return false;
      }
      ReleaseLevels(Disk(), cache, header, tx.value, named, idx.value);
      MergeReleased(idx.value);
      return true;
    }

    method MergeReleased(idx: nat)
      requires idx < |named|
      modifies this`named
      ensures named == Kept(old(named), idx)
    {
      var released := named[idx..];
      named := named[..idx];
      if |named| > 0 {
        var (parentName, parent) := named[idx - 1];
        ghost var first := parent;
        for i := 0 to |released|
          invariant Merged(parent, released[i..]) == Merged(first, released)
        {
          var child := released[i].1;
          assert released[i..][0] == released[i] && released[i..][1..] == released[i + 1..];
          parent := Log(parent.header, child.undo + parent.undo, parent.dirty + child.dirty);
        }
        named := named[..idx - 1] + [(parentName, parent)];
      }
    }

    // The changes one after the other, until one fails.
    method MakeChanges(changes: seq<Change>) returns (ok: bool, ghost gone: set<PageId>)
      requires Valid() && tx.Some? && header.total + |changes| <= LAST_PAGE
      modifies this`header, this`cache, this`lru, this`tx, this`named
      ensures Valid() && tx.Some? && (Whole() <==> old(Whole())) && (Whole() ==> gone == {})
      ensures Contents().(working := None) == Lost(old(Contents()), gone).(working := None)
      ensures ok && gone == {} ==> ChangedBy(old(Now()), changes, pageSize) == Some(Now())
      ensures gone == {} && !ioFailed ==> (ok <==> ChangedBy(old(Now()), changes, pageSize).Some?)
    {
      hide NoRepeats, Begun, Levels, Settled, SavedAt, SnapshotAt, ChangedBy, Take, Give, Written, Complete;
      ghost var before, c := Now(), Contents();
      gone := {};
      NoChange(before, changes, pageSize);
      NothingLost(c);
      for i := 0 to |changes|
        invariant Valid() && tx.Some? && header.total + (|changes| - i) <= LAST_PAGE
        invariant (Whole() <==> old(Whole())) && (Whole() ==> gone == {})
        invariant Contents().(working := None) == Lost(c, gone).(working := None)
        invariant gone == {} ==> ChangedBy(before, changes[..i], pageSize) == Some(Now())
      {
        OneMoreChange(before, changes, i, pageSize);
        FailedStays(before, changes, i + 1, pageSize);
        ghost var g;
        ok, g := MakeChange(changes[i]);
        LostTwice(c, gone, g);
        gone := gone + g;
        if !ok {
          return;
        }
      }
      assert changes[..|changes|] == changes;
      ok := true;
    }

    method MakeChange(change: Change) returns (ok: bool, ghost gone: set<PageId>)
      requires Valid() && tx.Some? && header.total < LAST_PAGE
      modifies this`header, this`cache, this`lru, this`tx, this`named
      ensures Valid() && tx.Some? && (Whole() <==> old(Whole())) && (Whole() ==> gone == {})
      ensures header.total <= old(header.total) + 1
      ensures Contents().(working := None) == Lost(old(Contents()), gone).(working := None)
      ensures ok && gone == {} ==> Changed(old(Now()), change, pageSize) == Some(Now())
      ensures gone == {} && !ioFailed ==> (ok <==> Changed(old(Now()), change, pageSize).Some?)
    {
      hide NoRepeats, Begun, Levels, Settled, SavedAt, SnapshotAt, Take, Give, Complete;
      match change {
        case Write(p, data) =>
          NothingLost(Contents());
          NothingWithout(Now());
          SeenNow(Disk(), cache, header, p);
          var r;
          r, gone := WritePage(p, data);
          ok := r.Ok?;
        case Allocate =>
          var r;
          r, gone := AllocatePage();
          ok := r.Ok?;
        case Free(p) =>
          var r;
          r, gone := FreePage(p);
          ok := r.Ok?;
      }
    }

    // One statement, alone or within the open transaction: its changes and the caller's verdict on
    // them, or nothing.
    method AtomicStatement(changes: seq<Change>, accept: bool, io: bool, recovered: bool, upkeep: Upkeep)
      returns (ok: bool, ghost gone: set<PageId>)
      requires Valid() && header.total + |changes| <= LAST_PAGE
      modifies this
      ensures Valid() && (tx.Some? <==> old(tx).Some?) && (file.Some? <==> old(file).Some?)
      ensures ok && gone == {} ==>
        old(Contents()).Execute(S.Run(WorkOf(changes, pageSize)), true) == (Contents().(broken := old(Contents()).broken), true)
      ensures !ok ==> Contents().(broken := old(Contents()).broken) == Lost(old(Contents()), gone)
      ensures gone == {} && !old(ioFailed) ==>
        (ok <==> accept && ChangedBy(old(Now()), changes, pageSize).Some? && (old(tx).Some? || io))
      ensures ok ==> (ioFailed <==> if tx.Some? then old(ioFailed) else ResetFailed(upkeep))
      ensures !ok && tx.Some? ==> ioFailed == !io
      ensures !ok && tx.None? ==> (ioFailed ==> old(ioFailed) || !io) && (old(ioFailed) ==> ioFailed)
      ensures !ok && tx.None? && gone == {} && !old(ioFailed) ==>
        (ioFailed <==> !io && !(recovered && accept && ChangedBy(old(Now()), changes, pageSize).Some?))
      ensures old(Whole()) && (file.Some? || wal != map[] || !ok || tx.Some?) ==> Whole() && gone == {}
    {
      hide NoRepeats, Begun, Levels, Settled, SavedAt, SnapshotAt, ChangedBy, Complete;
      if tx.None? {
        ok, gone := StatementAlone(changes, accept, io, recovered, upkeep);
      } else {
        ok, gone := StatementInside(changes, accept, io);
      }
    }

    method StatementAlone(changes: seq<Change>, accept: bool, io: bool, recovered: bool, upkeep: Upkeep)
      returns (ok: bool, ghost gone: set<PageId>)
      requires Valid() && tx.None? && header.total + |changes| <= LAST_PAGE
      modifies this
      ensures Valid() && tx.None? && (file.Some? <==> old(file).Some?)
      ensures ok && gone == {} ==>
        !old(ioFailed) && ChangedBy(old(Now()), changes, pageSize) == Some(Now())
      ensures !ok ==> Now() == old(Now()).Without(gone)
      ensures gone == {} && !old(ioFailed) ==> (ok <==> accept && ChangedBy(old(Now()), changes, pageSize).Some? && io)
      ensures ok ==> (ioFailed <==> ResetFailed(upkeep))
      ensures !ok ==> (ioFailed ==> old(ioFailed) || !io) && (old(ioFailed) ==> ioFailed)
      ensures !ok && gone == {} && !old(ioFailed) ==>
        (ioFailed <==> !io && !(recovered && accept && ChangedBy(old(Now()), changes, pageSize).Some?))
      ensures old(Whole()) && (file.Some? || wal != map[] || !ok) ==> Whole() && gone == {}
    {
      hide NoRepeats, Begun, Levels, Settled, SavedAt, SnapshotAt, ChangedBy, Complete;
      ghost var now := Now();
      NothingWithout(now);
      gone := {};
      var begun := Begin();
      if !begun {
        return false, gone;
      }
      var made;
      made, gone := MakeChanges(changes);
      ghost var changed := Now();
      if made && accept {
        NothingWithout(changed);
        ghost var g;
        ok, g := CommitTransaction(io, recovered, upkeep);
        if ok {
          assert gone + g == {} ==> gone == {} && g == {};
          gone := gone + g;
        } else {
          var undone := RollbackTransaction(recovered);
        }
        return;
      }
      var undone := RollbackTransaction(io);
      ok := false;
    }

    method StatementInside(changes: seq<Change>, accept: bool, io: bool) returns (ok: bool, ghost gone: set<PageId>)
      requires Valid() && tx.Some? && header.total + |changes| <= LAST_PAGE
      modifies this
      ensures Valid() && tx.Some? && file == old(file) && (Whole() <==> old(Whole())) && (Whole() ==> gone == {})
      ensures ok && gone == {} ==>
        && ChangedBy(old(Now()), changes, pageSize) == Some(Now())
        && Contents() == old(Contents()).(working := Some(Now()))
      ensures !ok ==> Contents() == Lost(old(Contents()), gone)
      ensures gone == {} && !old(ioFailed) ==> (ok <==> accept && ChangedBy(old(Now()), changes, pageSize).Some?)
      ensures ioFailed == if ok then old(ioFailed) else !io
    {
      hide NoRepeats, Begun, Levels, Settled, SavedAt, SnapshotAt, ChangedBy, S.Position, StatementName, Complete;
      var name := StatementName(|named|);
      ghost var c, now := Contents(), Now();
      NothingLost(c);
      NewestNamed(c.saved, name, now);
      var saved := CreateSavepoint(name);
      var made;
      made, gone := MakeChanges(changes);
      SavedAfterLoss(c, name, now, gone);
      if made && accept {
        ok := ReleaseSavepoint(name);
        return;
      }
      ok := false;
      UndoStatement(name, io);
    }

    // Back to the newest savepoint, which is dropped.
    method UndoStatement(name: string, io: bool)
      requires Valid() && tx.Some?
      requires var saved := Contents().saved; |saved| > 0 && S.Position(saved, name) == Some(|saved| - 1)
      modifies this
      ensures Valid() && tx == old(tx) && file == old(file) && (Whole() <==> old(Whole()))
      ensures var c := old(Contents()); var n := |c.saved| - 1;
              Contents() == c.(working := Some(c.saved[n].1), saved := c.saved[..n])
      ensures ioFailed == !io
    {
      hide NoRepeats, Begun, Levels, Settled, SavedAt, SnapshotAt, S.Position, Complete;
      ghost var c := Contents();
      SavedNames(Disk(), cache, named);
      S.SamePosition(named, c.saved, name);
      var undone := RollbackToSavepoint(name, io);
      if undone {
        NewestNamed(c.saved[..|c.saved| - 1], name, c.saved[|c.saved| - 1].1);
        var released := ReleaseSavepoint(name);
      }
    }

    method DropLeastUsed()
      requires NoRepeats(lru)
      modifies this`cache, this`lru
      ensures cache == Evicted(old(lru), old(cache), Needed(), Most())
      ensures lru == StillListed(old(lru), old(cache), Needed(), Most()) && NoRepeats(lru)
    {
      hide NoRepeats, Removed, Evicted, StillListed, Victim;
      var kept := Needed();
      while |cache| > Most()
        invariant NoRepeats(lru)
        invariant Evicted(lru, cache, kept, Most()) == Evicted(old(lru), old(cache), kept, Most())
        invariant StillListed(lru, cache, kept, Most()) == StillListed(old(lru), old(cache), kept, Most())
        decreases |lru|
      {
        var i := 0;
        while i < |lru| && lru[i] in kept
          invariant 0 <= i <= |lru| && forall j :: 0 <= j < i ==> lru[j] in kept
        {
          i := i + 1;
        }
        VictimIs(lru, kept, i);
        OneDropped(lru, cache, kept, Most());
        if i == |lru| {
          break;
        }
        ListedOnce(lru, i);
        cache, lru := cache - {lru[i]}, Removed(lru, i);
      }
      OneDropped(lru, cache, kept, Most());
    }

    function Most(): nat {
      if capacity < 4 then 4 else capacity
    }
  }

  // Dropping pages that no transaction has changed.
  lemma DroppedInside(disk: PageMap, cache: PageMap, cache': PageMap, header: Header, tx: Log, gone: set<PageId>)
    requires Begun(disk, cache, header, tx) && cache'.Keys <= cache.Keys && forall p :: p in cache' ==> cache'[p] == cache[p]
    requires forall p :: p in cache && (p == 1 || p in tx.undo) ==> p in cache'
    requires gone == set p | p in cache && p !in cache' && 1 <= p <= header.total && p !in disk
    ensures TurnsOver(disk, cache, cache', header, tx.undo.Keys, gone)
    ensures Complete(disk, tx.header.total) ==> gone == {}
  {
  }

  // Only the number of pages counts for what the logs hold.
  lemma SameTotal(disk: PageMap, cache: PageMap, header: Header, header': Header, tx: Log, named: seq<(string, Log)>)
    requires header.total == header'.total
    ensures Begun(disk, cache, header, tx) <==> Begun(disk, cache, header', tx)
    ensures Levels(cache, header, tx, named) <==> Levels(cache, header', tx, named)
    ensures SnapshotAt(disk, cache, [], header').pages == SnapshotAt(disk, cache, [], header).pages
  {
    hide Back;
    forall i | 0 <= i < |named| ensures Level(cache, header, tx, named, i) <==> Level(cache, header', tx, named, i) {
    }
  }

  lemma KnownPage(disk: PageMap, cache: PageMap, header: Header, tx: Log, p: PageId)
    requires Begun(disk, cache, header, tx) && 1 <= p <= header.total
    ensures p in tx.undo ==> p in cache
    ensures p !in tx.undo ==> p <= tx.header.total
  {
  }

  // Loading a page that is not cached.
  lemma LoadedInside(disk: PageMap, cache: PageMap, header: Header, tx: Log, p: PageId)
    requires Begun(disk, cache, header, tx) && 1 <= p <= header.total && p !in cache && p in disk
    ensures TurnsOver(disk, cache, cache[p := disk[p]], header, tx.undo.Keys, {})
  {
  }

  lemma LoadedOutside(disk: PageMap, cache: PageMap, header: Header, p: PageId)
    requires Settled(disk, cache, header) && 1 <= p <= header.total && p !in cache && p in disk
    ensures TurnsOver(disk, cache, cache[p := disk[p]], header, {}, {}) && Settled(disk, cache[p := disk[p]], header)
  {
  }

  // What can be read of the present.
  lemma SeenNow(disk: PageMap, cache: PageMap, header: Header, p: PageId)
    ensures var now := SnapshotAt(disk, cache, [], header);
            && (p in now.pages <==> 1 <= p <= header.total && Seen(disk, cache, p).Some?)
            && (p in now.pages ==> Seen(disk, cache, p) == Some(now.pages[p]))
  {
  }

  lemma NothingWithout(s: Snapshot)
    ensures s.Without({}) == s
  {
    assert s.pages - {} == s.pages;
  }

  lemma DroppedOutside(disk: PageMap, cache: PageMap, cache': PageMap, header: Header, gone: set<PageId>)
    requires Settled(disk, cache, header) && cache'.Keys <= cache.Keys && forall p :: p in cache' ==> cache'[p] == cache[p]
    requires 1 in cache ==> 1 in cache'
    requires gone == set p | p in cache && p !in cache' && 1 <= p <= header.total && p !in disk
    ensures TurnsOver(disk, cache, cache', header, {}, gone) && Settled(disk, cache', header)
    ensures Complete(disk, header.total) ==> gone == {}
  {
  }

  lemma SavedNames(disk: PageMap, cache: PageMap, named: seq<(string, Log)>)
    ensures var saved := SavedAt(disk, cache, named);
            |saved| == |named| && forall i :: 0 <= i < |saved| ==> saved[i].0 == named[i].0
  {
  }

  lemma NothingSavedYet(disk: PageMap, cache: PageMap)
    ensures SavedAt(disk, cache, []) == []
  {
  }

  // A savepoint made last is found again, with the pages that were not lost since.
  lemma SavedAfterLoss(c: S.Connection<Snapshot>, name: string, now: Snapshot, gone: set<PageId>)
    ensures var saved := SavedWithout(c.saved + [(name, now)], gone);
            && saved == SavedWithout(c.saved, gone) + [(name, now.Without(gone))]
            && S.Position(saved, name) == Some(|c.saved|)
            && S.Position(SavedWithout(c.saved, gone) + [(name, now.Without(gone))], name) == Some(|c.saved|)
  {
    NewestNamed(SavedWithout(c.saved, gone), name, now.Without(gone));
  }

  lemma LostIsLess(c: S.Connection<Snapshot>, now: Snapshot, gone: set<PageId>)
    requires now == (if c.working.Some? then c.working.value else c.committed) && gone <= now.pages.Keys
    ensures gone != {} ==> Lost(c, gone) != c
  {
    if gone != {} {
      var p :| p in gone;
      assert p !in now.Without(gone).pages;
    }
  }

  lemma CachedOrStored(disk: PageMap, cache: PageMap, header: Header)
    ensures forall p :: p in SnapshotAt(disk, cache, [], header).pages <==>
              1 <= p <= header.total && (p in cache || p in disk)
  {
  }

  lemma NothingSaved(gone: set<PageId>)
    ensures SavedWithout([], gone) == []
  {
  }

  lemma VictimIs(lru: seq<PageId>, kept: set<PageId>, i: nat)
    requires i <= |lru| && (i < |lru| ==> lru[i] !in kept) && forall j :: 0 <= j < i ==> lru[j] in kept
    ensures Victim(lru, kept) == i
  {
  }

  // ---- a database in memory loses pages ----

  lemma {:induction false} CountTo(pages: PageMap, total: PageId)
    requires forall p: PageId :: p in pages <==> 1 <= p <= total
    ensures |pages| == total
    decreases total
  {
    if total > 0 {
      SmallerByOne(pages, total);
      CountTo(pages - {total}, total - 1);
    } else {
      assert pages == map[];
    }
  }

  // More than 256 pages opened from bytes: committing a transaction that does nothing leaves just 256
  // pages that can be read.
  method OpenThenCommitNothing(pageSize: PageSize, header: Header, pages: PageMap, order: seq<PageId>)
    returns (store: PageStore)
    requires header.total > 256 && forall p: PageId :: p in pages <==> 1 <= p <= header.total
    requires NoRepeats(order) && forall p :: p in order <==> p in pages
    ensures fresh(store) && store.Valid() && store.tx.None? && store.header == header
    ensures |store.Now().pages| == 256 && store.Now().pages.Keys < pages.Keys
  {
    hide Settled, Begun, Levels, SnapshotAt, Evicted, Complete;
    store := new PageStore.FromBytes(pageSize, 1000, header, pages, order);
    var begun := store.Begin();
    ghost var gone;
    var ok;
    FirstPageOnly(pages, header, store.tx.value);
    ok, gone := store.CommitTransaction(true, true, Fine);
    LeftCached(pages, order, header, store.Disk(), store.cache);
  }

  lemma LeftCached(pages: PageMap, order: seq<PageId>, header: Header, disk: PageMap, cache: PageMap)
    requires header.total > 256 && forall p: PageId :: p in pages <==> 1 <= p <= header.total
    requires NoRepeats(order) && forall p :: p in order <==> p in pages
    requires cache == Evicted(order, pages, {1}, 256) && disk.Keys <= {1}
    ensures var now := SnapshotAt(disk, cache, [], header); |now.pages| == 256 && now.pages.Keys < pages.Keys
  {
    hide SnapshotAt, Evicted;
    EvictedPart(order, pages, {1}, 256);
    EvictedSize(order, pages, 256);
    CountTo(pages, header.total);
    OnlyCached(disk, cache, header);
    SmallerKeys(cache, pages);
  }

  lemma FirstPageOnly(cache: PageMap, header: Header, tx: Log)
    requires tx.dirty == {}
    ensures var toWrite := ToWrite(cache, header, tx); toWrite.Keys <= {1} && |toWrite| <= 1
  {
    var toWrite := ToWrite(cache, header, tx);
    SubsetCount(toWrite.Keys, {1});
    assert |toWrite| == |toWrite.Keys|;
  }

  // Nothing but page 1 is stored, and that is cached.
  lemma OnlyCached(disk: PageMap, cache: PageMap, header: Header)
    requires disk.Keys <= {1} && 1 in cache && forall p :: p in cache ==> 1 <= p <= header.total
    ensures var now := SnapshotAt(disk, cache, [], header); now.pages.Keys == cache.Keys && |now.pages| == |cache|
  {
    hide SnapshotAt;
    var now := SnapshotAt(disk, cache, [], header);
    CachedOrStored(disk, cache, header);
    assert now.pages.Keys == cache.Keys;
    assert |now.pages| == |now.pages.Keys| && |cache| == |cache.Keys|;
  }

  lemma SmallerKeys(a: PageMap, b: PageMap)
    requires a.Keys <= b.Keys && |a| < |b|
    ensures a.Keys < b.Keys
  {
    assert |a| == |a.Keys| && |b| == |b.Keys| && a.Keys != b.Keys;
  }
}
