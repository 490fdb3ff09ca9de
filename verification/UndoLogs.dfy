// What the pager keeps to undo changes (src/pager/mod.rs): a log for the transaction and one for each
// savepoint, with the pages as they were before their first change.  Undoing logs brings those back.
module UndoLogs {
  import opened Wrappers
  import opened Bytes
  import opened Cells
  import opened Paging

  // What the pager keeps about the file: its pages and the head and length of its freelist.
  datatype Header = Header(total: PageId, trunk: PageId, freeCount: nat)

  // The header when the transaction or savepoint began, the pages changed since as they were before
  // (None for a page that did not exist), and the pages to write at commit.
  datatype Log = Log(header: Header, undo: map<PageId, Option<seq<byte>>>, dirty: set<PageId>)

  datatype Snapshot = Snapshot(header: Header, pages: PageMap)
  {
    function Without(gone: set<PageId>): Snapshot {
      Snapshot(header, pages - gone)
    }
  }

  // ---- pages, with logs undone ----

  // A page as it is read: from the cache, else from storage.
  function Seen(disk: PageMap, cache: PageMap, p: PageId): Option<seq<byte>> {
    if p in cache then Some(cache[p]) else if p in disk then Some(disk[p]) else None
  }

  // The cache after a log has been undone.
  function Restored(cache: PageMap, undo: map<PageId, Option<seq<byte>>>): PageMap {
    map p | p in cache.Keys + undo.Keys && (p in undo ==> undo[p].Some?) :: if p in undo then undo[p].value else cache[p]
  }

  // A page after the logs have been undone, the newest first: the oldest log that knows the page decides.
  function Back(disk: PageMap, cache: PageMap, logs: seq<(string, Log)>, p: PageId): Option<seq<byte>>
    decreases |logs|
  {
    if |logs| == 0 then Seen(disk, cache, p)
    else if p in logs[0].1.undo then Seen(disk, Restored(map[], logs[0].1.undo), p)
    else Back(disk, cache, logs[1..], p)
  }

  // All pages the header counts, after the logs have been undone.
  ghost function SnapshotAt(disk: PageMap, cache: PageMap, logs: seq<(string, Log)>, header: Header): (s: Snapshot)
    ensures s.header == header
  {
    Snapshot(header, map p: PageId | 1 <= p <= header.total && Back(disk, cache, logs, p).Some? ::
                       Back(disk, cache, logs, p).value)
  }

  ghost function SavedAt(disk: PageMap, cache: PageMap, named: seq<(string, Log)>): (s: seq<(string, Snapshot)>)
    ensures |s| == |named|
    ensures forall i :: 0 <= i < |s| ==>
      s[i] == (named[i].0, SnapshotAt(disk, cache, named[i..], named[i].1.header))
  {
    seq(|named|, i requires 0 <= i < |named| =>
      (named[i].0, SnapshotAt(disk, cache, named[i..], named[i].1.header)))
  }

  lemma {:induction false} BackNewest(disk: PageMap, cache: PageMap, logs: seq<(string, Log)>, l: (string, Log), p: PageId)
    ensures Back(disk, cache, logs + [l], p) == Back(disk, Restored(cache, l.1.undo), logs, p)
    decreases |logs|
  {
    var all := logs + [l];
    if |logs| > 0 {
      assert all[1..] == logs[1..] + [l];
      BackNewest(disk, cache, logs[1..], l, p);
    } else {
      assert all[1..] == [];
    }
  }

  // The log knows what page p was before.
  function Noted(l: Log, p: PageId, before: Option<seq<byte>>): Log {
    if p in l.undo then l else l.(undo := l.undo[p := before])
  }

  // Once the newest log knows the page, changing the page does not change what was before.
  lemma {:induction false} BackNoted(disk: PageMap, cache: PageMap, cache': PageMap, logs: seq<(string, Log)>, l: Log,
                                     name: string, p: PageId, q: PageId, before: Option<seq<byte>>)
    requires if q == p then before == Seen(disk, cache, p) else Seen(disk, cache', q) == Seen(disk, cache, q)
    ensures Back(disk, cache', logs + [(name, Noted(l, p, before))], q) == Back(disk, cache, logs + [(name, l)], q)
    decreases |logs|
  {
    var noted := Noted(l, p, before);
    var a, b := logs + [(name, noted)], logs + [(name, l)];
    if |logs| > 0 {
      assert a[1..] == logs[1..] + [(name, noted)] && b[1..] == logs[1..] + [(name, l)];
      BackNoted(disk, cache, cache', logs[1..], l, name, p, q, before);
    } else {
      assert a[1..] == [] && b[1..] == [];
    }
  }

  // Two neighbouring logs in one: the older one has the say.
  lemma {:induction false} BackMerged(disk: PageMap, cache: PageMap, logs: seq<(string, Log)>, l: Log, name: string,
                                      child: (string, Log), rest: seq<(string, Log)>, p: PageId)
    ensures Back(disk, cache, logs + [(name, l.(undo := child.1.undo + l.undo))] + rest, p)
         == Back(disk, cache, logs + [(name, l), child] + rest, p)
    decreases |logs|
  {
    var a, b := logs + [(name, l.(undo := child.1.undo + l.undo))] + rest, logs + [(name, l), child] + rest;
    if |logs| > 0 {
      assert a[1..] == logs[1..] + [(name, l.(undo := child.1.undo + l.undo))] + rest;
      assert b[1..] == logs[1..] + [(name, l), child] + rest;
      BackMerged(disk, cache, logs[1..], l, name, child, rest, p);
    } else {
      assert a[1..] == rest && b[1..] == [child] + rest && ([child] + rest)[1..] == rest;
    }
  }

  function Merged(l: Log, children: seq<(string, Log)>): (m: Log)
    ensures m.header == l.header && l.undo.Keys <= m.undo.Keys
    decreases |children|
  {
    if |children| == 0 then l
    else
      var child := children[0].1;
      Merged(Log(l.header, child.undo + l.undo, l.dirty + child.dirty), children[1..])
  }

  lemma {:induction false} BackMergedAll(disk: PageMap, cache: PageMap, logs: seq<(string, Log)>, l: Log, name: string,
                                         children: seq<(string, Log)>, p: PageId)
    ensures Back(disk, cache, logs + [(name, Merged(l, children))], p) == Back(disk, cache, logs + [(name, l)] + children, p)
    decreases |children|
  {
    if |children| == 0 {
      assert logs + [(name, l)] + children == logs + [(name, l)];
    } else {
      var child := children[0];
      var m := Log(l.header, child.1.undo + l.undo, l.dirty + child.1.dirty);
      BackMergedAll(disk, cache, logs, m, name, children[1..], p);
      BackMerged(disk, cache, logs, l, name, child, children[1..], p);
      BackUndo(disk, cache, logs, m, l.(undo := m.undo), name, children[1..], p);
      assert logs + [(name, l), child] + children[1..] == logs + [(name, l)] + children;
    }
  }

  // Only the undo pages of a log count.
  lemma {:induction false} BackUndo(disk: PageMap, cache: PageMap, logs: seq<(string, Log)>, l: Log, l': Log, name: string,
                                    rest: seq<(string, Log)>, p: PageId)
    requires l.undo == l'.undo
    ensures Back(disk, cache, logs + [(name, l)] + rest, p) == Back(disk, cache, logs + [(name, l')] + rest, p)
    decreases |logs|
  {
    var a, b := logs + [(name, l)] + rest, logs + [(name, l')] + rest;
    if |logs| > 0 {
      assert a[1..] == logs[1..] + [(name, l)] + rest && b[1..] == logs[1..] + [(name, l')] + rest;
      BackUndo(disk, cache, logs[1..], l, l', name, rest, p);
    } else {
      assert a[1..] == rest && b[1..] == rest;
    }
  }

  lemma SameSnapshot(disk: PageMap, cache: PageMap, logs: seq<(string, Log)>, disk': PageMap, cache': PageMap,
                     logs': seq<(string, Log)>, header: Header)
    requires forall p: PageId :: 1 <= p <= header.total ==> Back(disk, cache, logs, p) == Back(disk', cache', logs', p)
    ensures SnapshotAt(disk, cache, logs, header) == SnapshotAt(disk', cache', logs', header)
  {
    hide Back;
  }

  // ---- what holds inside a transaction ----

  // Pages that the transaction has not changed existed at its start; those it has changed are cached, to
  // be written, and known as they were.  Where storage has a page, it has it as it was at the start.
  ghost predicate Begun(disk: PageMap, cache: PageMap, header: Header, tx: Log) {
    && 1 <= tx.header.total <= header.total
    && (forall p: PageId :: 1 <= p <= header.total && p !in tx.undo ==>
          p <= tx.header.total && (p in cache && p in disk ==> cache[p] == disk[p]))
    && (forall p :: p in tx.undo && 1 <= p <= header.total ==> p in cache)
    && (forall p :: p in tx.undo && 1 <= p <= tx.header.total ==>
          tx.undo[p].Some? && (p in disk ==> tx.undo[p].value == disk[p]))
    && tx.undo.Keys <= tx.dirty
  }

  // A savepoint knows changed pages only, and all it counts will be cached when it is rolled back to.
  ghost predicate Level(cache: PageMap, header: Header, tx: Log, named: seq<(string, Log)>, i: nat)
    requires i < |named|
  {
    && tx.header.total <= named[i].1.header.total <= header.total
    && named[i].1.undo.Keys <= tx.undo.Keys
    && (forall j :: i <= j < |named| ==> named[i].1.header.total <= named[j].1.header.total)
    && (forall p :: p in tx.undo && 1 <= p <= named[i].1.header.total ==> Back(map[], cache, named[i..], p).Some?)
  }

  ghost predicate Levels(cache: PageMap, header: Header, tx: Log, named: seq<(string, Log)>) {
    forall i :: 0 <= i < |named| ==> Level(cache, header, tx, named, i)
  }

  // Undoing the newest savepoint.
  lemma PopLevel(disk: PageMap, cache: PageMap, header: Header, tx: Log, named: seq<(string, Log)>)
    requires Begun(disk, cache, header, tx) && Levels(cache, header, tx, named) && |named| > 0
    ensures var l := named[|named| - 1].1; var front := named[..|named| - 1];
            var cache' := Restored(cache, l.undo);
            && Begun(disk, cache', l.header, tx) && Levels(cache', l.header, tx, front)
            && SnapshotAt(disk, cache', [], l.header) == SnapshotAt(disk, cache, named[|named| - 1..], l.header)
            && SavedAt(disk, cache', front) == SavedAt(disk, cache, named)[..|named| - 1]
            && SnapshotAt(disk, cache', [("", tx)], tx.header) == SnapshotAt(disk, cache, [("", tx)], tx.header)
  {
    hide SnapshotAt, SavedAt, Begun, Level, Restored;
    var n := |named| - 1;
    var l, front := named[n], named[..n];
    var cache' := Restored(cache, l.1.undo);
    assert named[n..] == [l] && [] + [l] == [l];
    PoppedBegun(disk, cache, header, tx, named);
    PoppedSnapshot(disk, cache, [], l, l.1.header);
    forall i | 0 <= i < |front| ensures Level(cache', l.1.header, tx, front, i) {
      PoppedLevel(cache, header, tx, named, i);
    }
    forall i | 0 <= i < n
      ensures SnapshotAt(disk, cache', front[i..], front[i].1.header) == SnapshotAt(disk, cache, named[i..], named[i].1.header)
    {
      assert front[i..] + [l] == named[i..];
      PoppedSnapshot(disk, cache, front[i..], l, named[i].1.header);
    }
  }

  lemma PoppedSnapshot(disk: PageMap, cache: PageMap, logs: seq<(string, Log)>, l: (string, Log), header: Header)
    ensures SnapshotAt(disk, Restored(cache, l.1.undo), logs, header) == SnapshotAt(disk, cache, logs + [l], header)
  {
    hide SnapshotAt, Restored;
    forall p ensures Back(disk, Restored(cache, l.1.undo), logs, p) == Back(disk, cache, logs + [l], p) {
      BackNewest(disk, cache, logs, l, p);
    }
    SameSnapshot(disk, Restored(cache, l.1.undo), logs, disk, cache, logs + [l], header);
  }

  lemma PoppedBegun(disk: PageMap, cache: PageMap, header: Header, tx: Log, named: seq<(string, Log)>)
    requires Begun(disk, cache, header, tx) && Levels(cache, header, tx, named) && |named| > 0
    ensures var l := named[|named| - 1].1; var cache' := Restored(cache, l.undo);
            && Begun(disk, cache', l.header, tx)
            && SnapshotAt(disk, cache', [("", tx)], tx.header) == SnapshotAt(disk, cache, [("", tx)], tx.header)
  {
    hide SnapshotAt;
    var n := |named| - 1;
    var l, cache' := named[n], Restored(cache, named[n].1.undo);
    assert Level(cache, header, tx, named, n);
    assert named[n..] == [l] && [] + [l] == [l] && [("", tx)][1..] == [];
    forall p | p in tx.undo && 1 <= p <= l.1.header.total ensures p in cache' {
      assert Back(map[], cache, named[n..], p).Some?;
      BackNewest(map[], cache, [], l, p);
    }
    forall p ensures Back(disk, cache', [("", tx)], p) == Back(disk, cache, [("", tx)], p) {
    }
    SameSnapshot(disk, cache', [("", tx)], disk, cache, [("", tx)], tx.header);
  }

  lemma PoppedLevel(cache: PageMap, header: Header, tx: Log, named: seq<(string, Log)>, i: nat)
    requires Levels(cache, header, tx, named) && |named| > 0 && i < |named| - 1
    ensures var l := named[|named| - 1].1; Level(Restored(cache, l.undo), l.header, tx, named[..|named| - 1], i)
  {
    hide Restored;
    var n := |named| - 1;
    var l, front := named[n], named[..n];
    assert Level(cache, header, tx, named, i);
    assert front[i..] + [l] == named[i..];
    forall p | p in tx.undo && 1 <= p <= front[i].1.header.total
      ensures Back(map[], Restored(cache, l.1.undo), front[i..], p).Some?
    {
      BackNewest(map[], cache, front[i..], l, p);
    }
  }

  // A log that has noted a page and is to write it.
  function Touched(l: Log, p: PageId, before: Option<seq<byte>>): Log {
    var noted := Noted(l, p, before);
    noted.(dirty := noted.dirty + {p})
  }

  function TouchedNewest(named: seq<(string, Log)>, p: PageId, before: Option<seq<byte>>): (s: seq<(string, Log)>)
    ensures |s| == |named|
  {
    if |named| == 0 then named
    else
      var n := |named| - 1;
      named[..n] + [(named[n].0, Touched(named[n].1, p, before))]
  }

  lemma TouchedBack(disk: PageMap, cache: PageMap, cache': PageMap, named: seq<(string, Log)>, p: PageId, i: nat, q: PageId,
                    before: Option<seq<byte>>)
    requires i < |named| && if q == p then before == Seen(disk, cache, p) else Seen(disk, cache', q) == Seen(disk, cache, q)
    ensures var named' := TouchedNewest(named, p, before); Back(disk, cache', named'[i..], q) == Back(disk, cache, named[i..], q)
  {
    var n := |named| - 1;
    var (name, l) := named[n];
    var mid := named[i..n];
    BackNoted(disk, cache, cache', mid, l, name, p, q, before);
    BackUndo(disk, cache', mid, Noted(l, p, before), Touched(l, p, before), name, [], q);
    assert TouchedNewest(named, p, before)[i..] == mid + [(name, Touched(l, p, before))] + [];
    assert mid + [(name, Noted(l, p, before))] + [] == mid + [(name, Noted(l, p, before))];
    assert named[i..] == mid + [(name, l)];
  }

  // Changing a page in the cache, once the logs know what it was, changes the present and nothing else.
  lemma ChangePage(disk: PageMap, cache: PageMap, header: Header, tx: Log, named: seq<(string, Log)>, p: PageId,
                   before: Option<seq<byte>>, data: seq<byte>)
    requires Begun(disk, cache, header, tx) && Levels(cache, header, tx, named)
    requires 1 <= p <= header.total && before == Seen(disk, cache, p) && before.Some?
    ensures var tx', named', cache' := Touched(tx, p, before), TouchedNewest(named, p, before), cache[p := data];
            && Begun(disk, cache', header, tx') && Levels(cache', header, tx', named')
            && SnapshotAt(disk, cache', [], header)
               == Snapshot(header, SnapshotAt(disk, cache, [], header).pages[p := data])
            && SavedAt(disk, cache', named') == SavedAt(disk, cache, named)
            && SnapshotAt(disk, cache', [("", tx')], tx.header) == SnapshotAt(disk, cache, [("", tx)], tx.header)
  {
    hide SnapshotAt, Begun, Level, Touched, TouchedNewest;
    ChangedBegun(disk, cache, header, tx, p, before, data);
    ChangedStart(disk, cache, tx, p, before, data);
    var tx', named', cache' := Touched(tx, p, before), TouchedNewest(named, p, before), cache[p := data];
    forall i | 0 <= i < |named'| ensures Level(cache', header, tx', named', i) {
      ChangedLevel(disk, cache, header, tx, named, p, before, data, i);
    }
    ChangedSaved(disk, cache, named, p, before, data);
    PresentChanged(disk, cache, header, p, data);
  }

  lemma ChangedBegun(disk: PageMap, cache: PageMap, header: Header, tx: Log, p: PageId, before: Option<seq<byte>>,
                     data: seq<byte>)
    requires Begun(disk, cache, header, tx) && 1 <= p <= header.total && before == Seen(disk, cache, p) && before.Some?
    ensures Begun(disk, cache[p := data], header, Touched(tx, p, before))
  {
  }

  lemma ChangedStart(disk: PageMap, cache: PageMap, tx: Log, p: PageId, before: Option<seq<byte>>, data: seq<byte>)
    requires before == Seen(disk, cache, p)
    ensures SnapshotAt(disk, cache[p := data], [("", Touched(tx, p, before))], tx.header)
         == SnapshotAt(disk, cache, [("", tx)], tx.header)
  {
    hide SnapshotAt, Touched;
    var a, b := [("", Touched(tx, p, before))], [("", tx)];
    assert TouchedNewest(b, p, before) == a && a[0..] == a && b[0..] == b;
    forall q ensures Back(disk, cache[p := data], a, q) == Back(disk, cache, b, q) {
      TouchedBack(disk, cache, cache[p := data], b, p, 0, q, before);
    }
    SameSnapshot(disk, cache[p := data], a, disk, cache, b, tx.header);
  }

  lemma ChangedSaved(disk: PageMap, cache: PageMap, named: seq<(string, Log)>, p: PageId, before: Option<seq<byte>>,
                     data: seq<byte>)
    requires before == Seen(disk, cache, p)
    ensures SavedAt(disk, cache[p := data], TouchedNewest(named, p, before)) == SavedAt(disk, cache, named)
  {
    hide SnapshotAt;
    var named', cache' := TouchedNewest(named, p, before), cache[p := data];
    forall i | 0 <= i < |named|
      ensures named'[i].0 == named[i].0
      ensures SnapshotAt(disk, cache', named'[i..], named'[i].1.header) == SnapshotAt(disk, cache, named[i..], named[i].1.header)
    {
      forall q ensures Back(disk, cache', named'[i..], q) == Back(disk, cache, named[i..], q) {
        TouchedBack(disk, cache, cache', named, p, i, q, before);
      }
      SameSnapshot(disk, cache', named'[i..], disk, cache, named[i..], named[i].1.header);
    }
  }

  lemma PresentChanged(disk: PageMap, cache: PageMap, header: Header, p: PageId, data: seq<byte>)
    requires 1 <= p <= header.total
    ensures SnapshotAt(disk, cache[p := data], [], header)
         == Snapshot(header, SnapshotAt(disk, cache, [], header).pages[p := data])
  {
  }

  // A page that will be cached after undoing the logs still will be.
  lemma {:induction false} StaysCached(cache: PageMap, logs: seq<(string, Log)>, l: Log, name: string, p: PageId,
                                       before: Option<seq<byte>>, data: seq<byte>, q: PageId)
    requires before.Some?
    requires Back(map[], cache, logs + [(name, l)], q).Some? || (q == p && forall k :: k in logs ==> p !in k.1.undo)
    ensures Back(map[], cache[p := data], logs + [(name, Touched(l, p, before))], q).Some?
         || (q == p && p in l.undo && !Back(map[], cache, logs + [(name, l)], q).Some?)
    decreases |logs|
  {
    var a, b := logs + [(name, Touched(l, p, before))], logs + [(name, l)];
    if |logs| > 0 {
      assert a[1..] == logs[1..] + [(name, Touched(l, p, before))] && b[1..] == logs[1..] + [(name, l)];
      assert logs[0] in logs && forall k :: k in logs[1..] ==> k in logs;
      if q !in logs[0].1.undo {
        StaysCached(cache, logs[1..], l, name, p, before, data, q);
      }
    } else {
      assert a[1..] == [] && b[1..] == [];
    }
  }

  lemma ChangedLevel(disk: PageMap, cache: PageMap, header: Header, tx: Log, named: seq<(string, Log)>, p: PageId,
                     before: Option<seq<byte>>, data: seq<byte>, i: nat)
    requires Begun(disk, cache, header, tx) && Levels(cache, header, tx, named)
    requires 1 <= p <= header.total && before == Seen(disk, cache, p) && before.Some? && i < |named|
    ensures Level(cache[p := data], header, Touched(tx, p, before), TouchedNewest(named, p, before), i)
  {
    var tx', named', cache' := Touched(tx, p, before), TouchedNewest(named, p, before), cache[p := data];
    assert Level(cache, header, tx, named, i);
    var n := |named| - 1;
    var (name, l) := named[n];
    assert named'[i..] == named[i..n] + [(name, Touched(l, p, before))] && named[i..] == named[i..n] + [(name, l)];
    assert Level(cache, header, tx, named, n);
    forall k | k in named[i..n] ensures k.1.undo.Keys <= tx.undo.Keys {
      var j :| i <= j < n && named[j] == k;
      assert Level(cache, header, tx, named, j);
    }
    forall q | q in tx'.undo && 1 <= q <= named[i].1.header.total ensures Back(map[], cache', named'[i..], q).Some? {
      StaysCached(cache, named[i..n], l, name, p, before, data, q);
    }
  }

  // A page behind the last one: the logs learn that there was none.
  lemma AddPage(disk: PageMap, cache: PageMap, header: Header, tx: Log, named: seq<(string, Log)>, data: seq<byte>)
    requires Begun(disk, cache, header, tx) && Levels(cache, header, tx, named) && header.total < LAST_PAGE
    ensures var p := header.total + 1; var header' := header.(total := p);
            var tx', named', cache' := Touched(tx, p, None), TouchedNewest(named, p, None), cache[p := data];
            && Begun(disk, cache', header', tx') && Levels(cache', header', tx', named')
            && SnapshotAt(disk, cache', [], header') == Snapshot(header', SnapshotAt(disk, cache, [], header).pages[p := data])
            && SavedAt(disk, cache', named') == SavedAt(disk, cache, named)
            && SnapshotAt(disk, cache', [("", tx')], tx.header) == SnapshotAt(disk, cache, [("", tx)], tx.header)
  {
    hide SnapshotAt, TouchedNewest, Touched, Begun;
    var p := header.total + 1;
    var tx', named', cache' := Touched(tx, p, None), TouchedNewest(named, p, None), cache[p := data];
    AddedBegun(disk, cache, header, tx, data);
    AddedStart(disk, cache, tx, p, data);
    forall i | 0 <= i < |named|
      ensures SnapshotAt(disk, cache', named'[i..], named'[i].1.header) == SnapshotAt(disk, cache, named[i..], named[i].1.header)
      ensures named'[i].0 == named[i].0 && Level(cache', header.(total := p), tx', named', i)
    {
      AddedLevel(disk, cache, header, tx, named, data, i);
    }
    AddedPresent(disk, cache, header, data);
  }

  lemma AddedBegun(disk: PageMap, cache: PageMap, header: Header, tx: Log, data: seq<byte>)
    requires Begun(disk, cache, header, tx) && header.total < LAST_PAGE
    ensures var p := header.total + 1; Begun(disk, cache[p := data], header.(total := p), Touched(tx, p, None))
    ensures tx.header.total <= header.total
  {
  }

  lemma AddedStart(disk: PageMap, cache: PageMap, tx: Log, p: PageId, data: seq<byte>)
    requires tx.header.total < p
    ensures SnapshotAt(disk, cache[p := data], [("", Touched(tx, p, None))], tx.header)
         == SnapshotAt(disk, cache, [("", tx)], tx.header)
  {
    hide SnapshotAt, Touched;
    var a, b := [("", Touched(tx, p, None))], [("", tx)];
    assert TouchedNewest(b, p, None) == a && a[0..] == a && b[0..] == b;
    forall q: PageId | 1 <= q <= tx.header.total ensures Back(disk, cache[p := data], a, q) == Back(disk, cache, b, q) {
      TouchedBack(disk, cache, cache[p := data], b, p, 0, q, None);
    }
    SameSnapshot(disk, cache[p := data], a, disk, cache, b, tx.header);
  }

  lemma AddedLevel(disk: PageMap, cache: PageMap, header: Header, tx: Log, named: seq<(string, Log)>, data: seq<byte>, i: nat)
    requires Levels(cache, header, tx, named) && header.total < LAST_PAGE && i < |named|
    ensures var p := header.total + 1; var cache', named' := cache[p := data], TouchedNewest(named, p, None);
            && Level(cache', header.(total := p), Touched(tx, p, None), named', i) && named'[i].0 == named[i].0
            && SnapshotAt(disk, cache', named'[i..], named'[i].1.header)
               == SnapshotAt(disk, cache, named[i..], named[i].1.header)
  {
    hide SnapshotAt;
    var p := header.total + 1;
    var cache', named' := cache[p := data], TouchedNewest(named, p, None);
    assert Level(cache, header, tx, named, i);
    forall q: PageId | 1 <= q <= named[i].1.header.total
      ensures Back(disk, cache', named'[i..], q) == Back(disk, cache, named[i..], q)
      ensures Back(map[], cache', named'[i..], q) == Back(map[], cache, named[i..], q)
    {
      TouchedBack(disk, cache, cache', named, p, i, q, None);
      TouchedBack(map[], cache, cache', named, p, i, q, None);
    }
    SameSnapshot(disk, cache', named'[i..], disk, cache, named[i..], named[i].1.header);
  }

  lemma AddedPresent(disk: PageMap, cache: PageMap, header: Header, data: seq<byte>)
    requires header.total < LAST_PAGE
    ensures var p := header.total + 1;
            SnapshotAt(disk, cache[p := data], [], header.(total := p))
            == Snapshot(header.(total := p), SnapshotAt(disk, cache, [], header).pages[p := data])
  {
  }

  // Loading and dropping pages: those in gone can be read no more, all others as before, and the
  // changed pages stay cached.
  ghost predicate TurnsOver(disk: PageMap, cache: PageMap, cache': PageMap, header: Header, changed: set<PageId>,
                            gone: set<PageId>)
  {
    && (forall p: PageId :: 1 <= p <= header.total ==>
          Seen(disk, cache', p) == if p in gone then None else Seen(disk, cache, p))
    && (forall p :: p in changed ==> p !in gone)
    && (forall p :: p in changed && 1 <= p <= header.total ==> (p in cache <==> p in cache'))
  }

  lemma TurnOver(disk: PageMap, cache: PageMap, cache': PageMap, header: Header, tx: Log, named: seq<(string, Log)>,
                 gone: set<PageId>)
    requires Begun(disk, cache, header, tx) && Levels(cache, header, tx, named)
    requires TurnsOver(disk, cache, cache', header, tx.undo.Keys, gone)
    ensures Begun(disk, cache', header, tx) && Levels(cache', header, tx, named)
    ensures SnapshotAt(disk, cache', [], header) == SnapshotAt(disk, cache, [], header).Without(gone)
    ensures SavedAt(disk, cache', named) == SavedWithout(SavedAt(disk, cache, named), gone)
    ensures SnapshotAt(disk, cache', [("", tx)], tx.header) == SnapshotAt(disk, cache, [("", tx)], tx.header).Without(gone)
  {
    hide SnapshotAt, Begun, Level, TurnsOver;
    TurnedBegun(disk, cache, cache', header, tx, gone);
    TurnedSnapshot(disk, cache, cache', [], header, header, tx.undo.Keys, gone);
    TurnedSnapshot(disk, cache, cache', [("", tx)], tx.header, header, tx.undo.Keys, gone);
    forall i | 0 <= i < |named|
      ensures Level(cache', header, tx, named, i)
      ensures SnapshotAt(disk, cache', named[i..], named[i].1.header)
           == SnapshotAt(disk, cache, named[i..], named[i].1.header).Without(gone)
    {
      TurnedLevel(disk, cache, cache', header, tx, named, i, gone);
      TurnedSnapshot(disk, cache, cache', named[i..], named[i].1.header, header, tx.undo.Keys, gone);
    }
  }

  ghost function SavedWithout(saved: seq<(string, Snapshot)>, gone: set<PageId>): (s: seq<(string, Snapshot)>)
    ensures |s| == |saved|
    ensures forall i :: 0 <= i < |s| ==> s[i] == (saved[i].0, saved[i].1.Without(gone))
  {
    seq(|saved|, i requires 0 <= i < |saved| => (saved[i].0, saved[i].1.Without(gone)))
  }

  lemma TurnedBegun(disk: PageMap, cache: PageMap, cache': PageMap, header: Header, tx: Log, gone: set<PageId>)
    requires Begun(disk, cache, header, tx) && TurnsOver(disk, cache, cache', header, tx.undo.Keys, gone)
    ensures Begun(disk, cache', header, tx) && tx.header.total <= header.total
  {
    forall p: PageId | 1 <= p <= header.total && p !in tx.undo && p in cache' && p in disk ensures cache'[p] == disk[p] {
      assert Seen(disk, cache', p) == if p in gone then None else Seen(disk, cache, p);
    }
  }

  lemma TurnedSnapshot(disk: PageMap, cache: PageMap, cache': PageMap, logs: seq<(string, Log)>, h: Header,
                       header: Header, changed: set<PageId>, gone: set<PageId>)
    requires h.total <= header.total && TurnsOver(disk, cache, cache', header, changed, gone)
    requires forall l :: l in logs ==> l.1.undo.Keys <= changed
    ensures SnapshotAt(disk, cache', logs, h) == SnapshotAt(disk, cache, logs, h).Without(gone)
  {
    hide Back;
    forall p: PageId | 1 <= p <= h.total
      ensures Back(disk, cache', logs, p) == if p in gone then None else Back(disk, cache, logs, p)
    {
      BackTurned(disk, cache, cache', logs, p, changed, gone);
    }
  }

  lemma {:induction false} BackTurned(disk: PageMap, cache: PageMap, cache': PageMap, logs: seq<(string, Log)>, p: PageId,
                                      changed: set<PageId>, gone: set<PageId>)
    requires Seen(disk, cache', p) == if p in gone then None else Seen(disk, cache, p)
    requires p in changed ==> p !in gone
    requires forall l :: l in logs ==> l.1.undo.Keys <= changed
    ensures Back(disk, cache', logs, p) == if p in gone then None else Back(disk, cache, logs, p)
    decreases |logs|
  {
    if |logs| > 0 {
      assert logs[0] in logs && forall l :: l in logs[1..] ==> l in logs;
      BackTurned(disk, cache, cache', logs[1..], p, changed, gone);
    }
  }

  lemma TurnedLevel(disk: PageMap, cache: PageMap, cache': PageMap, header: Header, tx: Log, named: seq<(string, Log)>,
                    i: nat, gone: set<PageId>)
    requires Levels(cache, header, tx, named) && i < |named|
    requires TurnsOver(disk, cache, cache', header, tx.undo.Keys, gone)
    ensures Level(cache', header, tx, named, i) && named[i].1.header.total <= header.total
    ensures forall l :: l in named[i..] ==> l.1.undo.Keys <= tx.undo.Keys
  {
    hide Seen;
    assert Level(cache, header, tx, named, i);
    forall p | p in tx.undo && 1 <= p <= named[i].1.header.total ensures Back(map[], cache', named[i..], p).Some? {
      BackCached(cache, cache', named[i..], p);
    }
    forall l | l in named[i..] ensures l.1.undo.Keys <= tx.undo.Keys {
      var j :| i <= j < |named| && named[j] == l;
      assert Level(cache, header, tx, named, j);
    }
  }

  lemma {:induction false} BackCached(cache: PageMap, cache': PageMap, logs: seq<(string, Log)>, p: PageId)
    requires p in cache <==> p in cache'
    ensures Back(map[], cache, logs, p).Some? <==> Back(map[], cache', logs, p).Some?
    decreases |logs|
  {
    if |logs| > 0 {
      BackCached(cache, cache', logs[1..], p);
    }
  }

  // ---- releasing ----

  lemma {:induction false} MergedKeys(l: Log, children: seq<(string, Log)>, known: set<PageId>)
    requires l.undo.Keys <= known && forall k :: k in children ==> k.1.undo.Keys <= known
    ensures Merged(l, children).undo.Keys <= known
    decreases |children|
  {
    if |children| > 0 {
      var child := children[0];
      assert child in children && forall k :: k in children[1..] ==> k in children;
      MergedKeys(Log(l.header, child.1.undo + l.undo, l.dirty + child.1.dirty), children[1..], known);
    }
  }

  // Savepoints from idx on are dropped; what their logs know goes to the one before.
  function Kept(named: seq<(string, Log)>, idx: nat): (s: seq<(string, Log)>)
    requires idx < |named|
    ensures |s| == idx
  {
    if idx == 0 then [] else named[..idx - 1] + [(named[idx - 1].0, Merged(named[idx - 1].1, named[idx..]))]
  }

  lemma KeptBack(disk: PageMap, cache: PageMap, named: seq<(string, Log)>, idx: nat, i: nat, p: PageId)
    requires i < idx < |named|
    ensures Back(disk, cache, Kept(named, idx)[i..], p) == Back(disk, cache, named[i..], p)
  {
    var (name, l) := named[idx - 1];
    BackMergedAll(disk, cache, named[i..idx - 1], l, name, named[idx..], p);
    assert Kept(named, idx)[i..] == named[i..idx - 1] + [(name, Merged(l, named[idx..]))];
    assert named[i..] == named[i..idx - 1] + [(name, l)] + named[idx..];
  }

  lemma ReleaseLevels(disk: PageMap, cache: PageMap, header: Header, tx: Log, named: seq<(string, Log)>, idx: nat)
    requires Levels(cache, header, tx, named) && idx < |named|
    ensures Levels(cache, header, tx, Kept(named, idx))
    ensures SavedAt(disk, cache, Kept(named, idx)) == SavedAt(disk, cache, named)[..idx]
  {
    hide SnapshotAt, Back;
    var kept := Kept(named, idx);
    forall i | 0 <= i < idx
      ensures Level(cache, header, tx, kept, i)
      ensures SnapshotAt(disk, cache, kept[i..], kept[i].1.header) == SnapshotAt(disk, cache, named[i..], named[i].1.header)
    {
      assert Level(cache, header, tx, named, i);
      forall p
        ensures Back(disk, cache, kept[i..], p) == Back(disk, cache, named[i..], p)
        ensures Back(map[], cache, kept[i..], p) == Back(map[], cache, named[i..], p)
      {
        KeptBack(disk, cache, named, idx, i, p);
        KeptBack(map[], cache, named, idx, i, p);
      }
      SameSnapshot(disk, cache, kept[i..], disk, cache, named[i..], named[i].1.header);
      forall k | k in named[idx..] ensures k.1.undo.Keys <= tx.undo.Keys {
        var j :| idx <= j < |named| && named[j] == k;
        assert Level(cache, header, tx, named, j);
      }
      assert Level(cache, header, tx, named, idx - 1);
      MergedKeys(named[idx - 1].1, named[idx..], tx.undo.Keys);
    }
  }

  // ---- beginning ----

  // A log that knows nothing yet.
  lemma EmptyLog(disk: PageMap, cache: PageMap, logs: seq<(string, Log)>, name: string, l: Log, header: Header)
    requires l.undo == map[]
    ensures SnapshotAt(disk, cache, logs + [(name, l)], header) == SnapshotAt(disk, cache, logs, header)
    ensures forall p :: Back(disk, cache, logs + [(name, l)], p) == Back(disk, cache, logs, p)
  {
    hide SnapshotAt;
    assert Restored(cache, l.undo) == cache;
    forall p ensures Back(disk, cache, logs + [(name, l)], p) == Back(disk, cache, logs, p) {
      BackNewest(disk, cache, logs, (name, l), p);
    }
    SameSnapshot(disk, cache, logs + [(name, l)], disk, cache, logs, header);
  }

  lemma PushLevel(disk: PageMap, cache: PageMap, header: Header, tx: Log, named: seq<(string, Log)>, name: string)
    requires Begun(disk, cache, header, tx) && Levels(cache, header, tx, named)
    ensures var named' := named + [(name, Log(header, map[], {}))];
            && Levels(cache, header, tx, named')
            && SavedAt(disk, cache, named') == SavedAt(disk, cache, named) + [(name, SnapshotAt(disk, cache, [], header))]
  {
    hide SnapshotAt;
    var l := Log(header, map[], {});
    var named' := named + [(name, l)];
    forall i | 0 <= i < |named'|
      ensures Level(cache, header, tx, named', i)
      ensures SnapshotAt(disk, cache, named'[i..], named'[i].1.header)
           == SnapshotAt(disk, cache, if i < |named| then named[i..] else [], named'[i].1.header)
    {
      var logs := if i < |named| then named[i..] else [];
      assert named'[i..] == logs + [(name, l)];
      EmptyLog(disk, cache, logs, name, l, named'[i].1.header);
      EmptyLog(map[], cache, logs, name, l, header);
      assert i < |named| ==> Level(cache, header, tx, named, i);
    }
  }

  // Outside a transaction: where storage has a page that is cached, they are the same.
  ghost predicate Settled(disk: PageMap, cache: PageMap, header: Header) {
    header.total >= 1 && forall p: PageId :: 1 <= p <= header.total && p in cache && p in disk ==> cache[p] == disk[p]
  }

  lemma BeginBegun(disk: PageMap, cache: PageMap, header: Header)
    requires Settled(disk, cache, header)
    ensures var tx := Log(header, map[], {});
            && Begun(disk, cache, header, tx) && Levels(cache, header, tx, [])
            && SnapshotAt(disk, cache, [("", tx)], header) == SnapshotAt(disk, cache, [], header)
  {
    hide SnapshotAt;
    EmptyLog(disk, cache, [], "", Log(header, map[], {}), header);
    assert [] + [("", Log(header, map[], {}))] == [("", Log(header, map[], {}))];
  }

  // Undoing the whole transaction.
  lemma UndoAll(disk: PageMap, cache: PageMap, header: Header, tx: Log)
    requires Begun(disk, cache, header, tx)
    ensures var cache' := Restored(cache, tx.undo);
            && Settled(disk, cache', tx.header)
            && SnapshotAt(disk, cache', [], tx.header) == SnapshotAt(disk, cache, [("", tx)], tx.header)
  {
    hide SnapshotAt;
    PoppedSnapshot(disk, cache, [], ("", tx), tx.header);
    assert [] + [("", tx)] == [("", tx)];
  }

  // The pages a commit writes, page 1 always among them.
  ghost function ToWrite(cache: PageMap, header: Header, tx: Log): PageMap {
    map p | p in tx.dirty + {1} && 1 <= p <= header.total && p in cache :: cache[p]
  }

  lemma CommitSettles(disk: PageMap, cache: PageMap, header: Header, tx: Log)
    requires Begun(disk, cache, header, tx)
    ensures var disk' := disk + ToWrite(cache, header, tx);
            && Settled(disk', cache, header) && SnapshotAt(disk', cache, [], header) == SnapshotAt(disk, cache, [], header)
            && (Complete(disk, tx.header.total) ==> Complete(disk', header.total))
  {
    hide SnapshotAt;
    SameSnapshot(disk + ToWrite(cache, header, tx), cache, [], disk, cache, [], header);
  }

  // Storage has every page up to this one, page 1 left aside.
  ghost predicate Complete(disk: PageMap, total: PageId) {
    forall p: PageId :: 1 < p <= total ==> p in disk
  }

  lemma NothingRestored(cache: PageMap)
    ensures Restored(cache, map[]) == cache
  {
  }

  lemma RestoredOneMore(cache: PageMap, done: map<PageId, Option<seq<byte>>>, p: PageId, before: Option<seq<byte>>)
    requires p !in done
    ensures Restored(cache, done[p := before])
         == if before.Some? then Restored(cache, done)[p := before.value] else Restored(cache, done) - {p}
  {
  }

  // ---- storage moved into the cache ----

  lemma EmptyPresent(disk: PageMap, cache: PageMap, header: Header)
    ensures SnapshotAt(map[], disk + cache, [], header) == SnapshotAt(disk, cache, [], header)
  {
    SameSnapshot(map[], disk + cache, [], disk, cache, [], header);
  }

  lemma EmptyStorage(disk: PageMap, cache: PageMap, header: Header, tx: Log, named: seq<(string, Log)>)
    requires Begun(disk, cache, header, tx) && Levels(cache, header, tx, named)
    ensures var c := disk + cache;
            && Begun(map[], c, header, tx) && Levels(c, header, tx, named)
            && SavedAt(map[], c, named) == SavedAt(disk, cache, named)
            && SnapshotAt(map[], c, [("", tx)], tx.header) == SnapshotAt(disk, cache, [("", tx)], tx.header)
  {
    hide SnapshotAt, Level;
    var c := disk + cache;
    EmptyStart(disk, cache, header, tx);
    forall i | 0 <= i < |named|
      ensures Level(c, header, tx, named, i)
      ensures SnapshotAt(map[], c, named[i..], named[i].1.header) == SnapshotAt(disk, cache, named[i..], named[i].1.header)
    {
      EmptyLevel(disk, cache, header, tx, named, i);
    }
  }

  lemma EmptyStart(disk: PageMap, cache: PageMap, header: Header, tx: Log)
    requires Begun(disk, cache, header, tx)
    ensures SnapshotAt(map[], disk + cache, [("", tx)], tx.header) == SnapshotAt(disk, cache, [("", tx)], tx.header)
  {
    hide SnapshotAt;
    assert [("", tx)][1..] == [];
    SameSnapshot(map[], disk + cache, [("", tx)], disk, cache, [("", tx)], tx.header);
  }

  lemma EmptyLevel(disk: PageMap, cache: PageMap, header: Header, tx: Log, named: seq<(string, Log)>, i: nat)
    requires Levels(cache, header, tx, named) && i < |named|
    ensures Level(disk + cache, header, tx, named, i)
    ensures SnapshotAt(map[], disk + cache, named[i..], named[i].1.header)
         == SnapshotAt(disk, cache, named[i..], named[i].1.header)
  {
    hide SnapshotAt, Back;
    assert Level(cache, header, tx, named, i);
    forall l | l in named[i..] ensures l.1.undo.Keys <= tx.undo.Keys {
      var j :| i <= j < |named| && named[j] == l;
      assert Level(cache, header, tx, named, j);
    }
    forall p: PageId | 1 <= p <= named[i].1.header.total
      ensures Back(map[], disk + cache, named[i..], p) == Back(disk, cache, named[i..], p)
      ensures p in tx.undo ==> Back(map[], disk + cache, named[i..], p).Some?
    {
      BackEmptied(disk, cache, named[i..], p, tx.undo.Keys);
    }
    SameSnapshot(map[], disk + cache, named[i..], disk, cache, named[i..], named[i].1.header);
  }

  lemma {:induction false} BackEmptied(disk: PageMap, cache: PageMap, logs: seq<(string, Log)>, p: PageId,
                                       changed: set<PageId>)
    requires (forall l :: l in logs ==> l.1.undo.Keys <= changed) && (p in changed ==> Back(map[], cache, logs, p).Some?)
    ensures Back(map[], disk + cache, logs, p) == Back(disk, cache, logs, p)
    ensures p in changed ==> Back(map[], disk + cache, logs, p).Some?
    decreases |logs|
  {
    if |logs| > 0 {
      assert logs[0] in logs && forall l :: l in logs[1..] ==> l in logs;
      if p !in logs[0].1.undo {
        BackEmptied(disk, cache, logs[1..], p, changed);
      }
    }
  }
}
