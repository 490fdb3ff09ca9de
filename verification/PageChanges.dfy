// What a statement does to the pages of a database (src/pager/mod.rs): writing, allocating and freeing
// them, the freelist being kept inside free pages.
module PageChanges {
  import opened Wrappers
  import opened Bytes
  import opened Cells
  import opened Keyed
  import opened Paging
  import opened Freelist
  import opened UndoLogs
  import S = Sessions

  type PageSize = n: nat | 8 <= n < 0x1_0000 witness 4096

  datatype Change = Write(p: PageId, data: seq<byte>) | Allocate | Free(p: PageId)

  datatype Taken = Taken(id: PageId, after: Snapshot)

  predicate Readable(d: Snapshot, p: PageId, pageSize: PageSize) {
    1 <= p <= d.header.total && p in d.pages && |d.pages[p]| == pageSize
  }

  // The page on top of the freelist: the one the trunk lists last, or the trunk itself.
  function Unlist(d: Snapshot, pageSize: PageSize): Option<Taken> {
    var h := d.header;
    if !Readable(d, h.trunk, pageSize) then None
    else
      var b := d.pages[h.trunk];
      var n := SlotCount(b);
      if n > MaxSlots(pageSize) then None
      else if n > 0 then
        Some(Taken(Slot(b, n - 1), Headed(Snapshot(h, d.pages[h.trunk := WithCount(b, n - 1)]), h.trunk, h.freeCount)))
      else Some(Taken(h.trunk, Headed(d, NextTrunk(b), h.freeCount)))
  }

  // One page less on the freelist.
  function Headed(d: Snapshot, trunk: PageId, freeCount: nat): Snapshot {
    Snapshot(d.header.(trunk := trunk, freeCount := if freeCount > 0 then freeCount - 1 else 0), d.pages)
  }

  // allocate_page: a page from the freelist, or a new one, zeroed.
  function Take(d: Snapshot, pageSize: PageSize): Option<Taken> {
    if d.header.freeCount > 0 && d.header.trunk > 0 then
      match Unlist(d, pageSize)
      case None => None
      case Some(t) =>
        if 1 <= t.id <= t.after.header.total && t.id in t.after.pages then
          Some(Taken(t.id, Snapshot(t.after.header, t.after.pages[t.id := Zeros(pageSize)])))
        else None
    else if d.header.total == LAST_PAGE then None
    else
      var p := d.header.total + 1;
      Some(Taken(p, Snapshot(d.header.(total := p), d.pages[p := Zeros(pageSize)])))
  }

  function Written(d: Snapshot, p: PageId, data: seq<byte>, pageSize: PageSize): Option<Snapshot> {
    if |data| == pageSize && 1 <= p <= d.header.total && p in d.pages then Some(Snapshot(d.header, d.pages[p := data]))
    else None
  }

  // free_page: the page is listed by the trunk, or becomes the trunk.
  function Give(d: Snapshot, p: PageId, pageSize: PageSize): Option<Snapshot> {
    var h := d.header;
    if p <= 1 || p > h.total then None
    else if h.trunk == 0 then Topped(Written(d, p, TrunkPage(pageSize, 0), pageSize), p, 1)
    else if !Readable(d, h.trunk, pageSize) then None
    else
      var b := d.pages[h.trunk];
      var n := SlotCount(b);
      if n < MaxSlots(pageSize) then Topped(Written(d, h.trunk, WithSlot(b, n, p), pageSize), h.trunk, h.freeCount + 1)
      else Topped(Written(d, p, TrunkPage(pageSize, h.trunk), pageSize), p, h.freeCount + 1)
  }

  function Topped(d: Option<Snapshot>, trunk: PageId, freeCount: nat): Option<Snapshot> {
    match d
    case Some(s) => Some(Snapshot(s.header.(trunk := trunk, freeCount := freeCount), s.pages))
    case None => None
  }

  function Changed(d: Snapshot, c: Change, pageSize: PageSize): Option<Snapshot> {
    match c
    case Write(p, data) => Written(d, p, data, pageSize)
    case Allocate => (match Take(d, pageSize) case Some(t) => Some(t.after) case None => None)
    case Free(p) => Give(d, p, pageSize)
  }

  function ChangedBy(d: Snapshot, changes: seq<Change>, pageSize: PageSize): Option<Snapshot>
    decreases |changes|
  {
    if |changes| == 0 then Some(d)
    else
      match ChangedBy(d, changes[..|changes| - 1], pageSize)
      case Some(e) => Changed(e, changes[|changes| - 1], pageSize)
      case None => None
  }

  lemma OneMoreChange(d: Snapshot, changes: seq<Change>, i: nat, pageSize: PageSize)
    requires i < |changes|
    ensures ChangedBy(d, changes[..i + 1], pageSize)
         == (match ChangedBy(d, changes[..i], pageSize)
             case Some(e) => Changed(e, changes[i], pageSize)
             case None => None)
  {
    hide Changed;
    assert changes[..i + 1][..i] == changes[..i];
  }

  // The changes of a statement as a unit of work.
  function WorkOf(changes: seq<Change>, pageSize: PageSize): S.Work<Snapshot> {
    (d: Snapshot) => ChangedBy(d, changes, pageSize)
  }

  lemma NoChange(d: Snapshot, changes: seq<Change>, pageSize: PageSize)
    ensures ChangedBy(d, changes[..0], pageSize) == Some(d)
  {
  }

  lemma {:induction false} FailedStays(d: Snapshot, changes: seq<Change>, i: nat, pageSize: PageSize)
    requires i <= |changes|
    ensures ChangedBy(d, changes[..i], pageSize).None? ==> ChangedBy(d, changes, pageSize).None?
    decreases |changes| - i
  {
    hide Changed;
    if i == |changes| {
      assert changes[..i] == changes;
    } else {
      OneMoreChange(d, changes, i, pageSize);
      FailedStays(d, changes, i + 1, pageSize);
    }
  }

  function Decimal(n: nat): string {
    (if n < 10 then "" else Decimal(n / 10)) + [('0' as int + n % 10) as char]
  }

  function StatementName(depth: nat): string {
    "__tapirus_statement_" + Decimal(depth)
  }

  // The newest savepoint is the one named last.
  lemma NewestNamed<T>(named: seq<(string, T)>, name: string, x: T)
    ensures S.Position(named + [(name, x)], name) == Some(|named|)
  {
  }

  // ---- the freelist of a snapshot ----

  ghost predicate FreeList(d: Snapshot, free: seq<PageId>, pageSize: PageSize) {
    && Listed(d.pages, d.header.trunk, free) && NoRepeats(free) && d.header.freeCount == |free|
    && forall id :: id in free ==> id > 1 && Readable(d, id, pageSize)
  }

  // Only pages on this list change, and no page is added.
  ghost predicate OthersKept(d: Snapshot, e: Snapshot, free: seq<PageId>) {
    && e.header.total == d.header.total && e.pages.Keys == d.pages.Keys
    && forall p :: p in d.pages && p !in free ==> e.pages[p] == d.pages[p]
  }

  // Without free pages the new one is the next behind the last, zeroed, and nothing else changes.
  lemma TakeIsNew(d: Snapshot, pageSize: PageSize)
    requires FreeList(d, [], pageSize)
    ensures var t, p := Take(d, pageSize), d.header.total + 1;
            if d.header.total == LAST_PAGE then t == None
            else t == Some(Taken(p, Snapshot(d.header.(total := p), d.pages[p := Zeros(pageSize)])))
  {
  }

  // Taking a page gives the one freed last, zeroed.
  lemma TakeIsPop(d: Snapshot, free: seq<PageId>, pageSize: PageSize)
    requires FreeList(d, free, pageSize) && free != []
    ensures var t := Take(d, pageSize);
            && t.Some? && t.value.id == free[|free| - 1]
            && FreeList(t.value.after, free[..|free| - 1], pageSize)
            && OthersKept(d, t.value.after, free)
            && t.value.after.pages[t.value.id] == Zeros(pageSize)
  {
    hide Listed, WithCount, SlotCount, Slot, NextTrunk, Zeros;
    var h, rest := d.header, free[..|free| - 1];
    TrunkIsFree(d, free, pageSize);
    PoppedFree(free, rest, free[|free| - 1]);
    var b := d.pages[h.trunk];
    var n := SlotCount(b);
    var pages := d.pages;
    if n > 0 {
      PopSlot(d.pages, h.trunk, free);
      pages := d.pages[h.trunk := WithCount(b, n - 1)];
    } else {
      PopTrunk(d.pages, h.trunk, free);
    }
    var id := free[|free| - 1];
    ListedFrame(pages, pages[id := Zeros(pageSize)], if n > 0 then h.trunk else NextTrunk(b), rest);
  }

  lemma TrunkIsFree(d: Snapshot, free: seq<PageId>, pageSize: PageSize)
    requires FreeList(d, free, pageSize)
    ensures d.header.trunk == 0 <==> free == []
    ensures d.header.trunk != 0 ==>
      d.header.trunk in free && SlotCount(d.pages[d.header.trunk]) <= MaxSlots(pageSize)
  {
    hide Entries, SlotCount;
    if d.header.trunk != 0 {
      assert free[|free| - SlotCount(d.pages[d.header.trunk]) - 1] in free;
    }
  }

  // Giving a page back puts it behind all others.
  lemma GiveIsPush(d: Snapshot, free: seq<PageId>, p: PageId, pageSize: PageSize)
    requires FreeList(d, free, pageSize) && p !in free && p > 1 && p <= d.header.total && p in d.pages
    requires |d.pages[p]| == pageSize
    ensures var e := Give(d, p, pageSize);
            e.Some? && FreeList(e.value, free + [p], pageSize) && OthersKept(d, e.value, free + [p])
  {
    hide Listed, WithSlot, SlotCount, TrunkPage;
    TrunkIsFree(d, free, pageSize);
    var h := d.header;
    if h.trunk == 0 || SlotCount(d.pages[h.trunk]) == MaxSlots(pageSize) {
      PushTrunk(d.pages, h.trunk, free, p, pageSize);
    } else {
      PushSlot(d.pages, h.trunk, free, p);
    }
  }
}
