// Which pages leave the cache (evict_if_needed of src/pager/mod.rs): the least recently used first, save
// page 1 and those a transaction has changed.
module Eviction {
  import opened Cells
  import opened Keyed

  // The list without page p.
  function Without(lru: seq<PageId>, p: PageId): seq<PageId> {
    if lru == [] then []
    else Without(lru[..|lru| - 1], p) + if lru[|lru| - 1] == p then [] else [lru[|lru| - 1]]
  }

  // The list of pages by use, p being used now.
  function Recent(lru: seq<PageId>, p: PageId): seq<PageId> {
    Without(lru, p) + [p]
  }

  lemma {:induction false} WithoutNothing(lru: seq<PageId>, p: PageId)
    requires p !in lru
    ensures Without(lru, p) == lru
  {
    if lru != [] {
      assert lru == lru[..|lru| - 1] + [lru[|lru| - 1]];
      WithoutNothing(lru[..|lru| - 1], p);
    }
  }

  // A page listed once is taken out, and nothing else changes.
  lemma {:induction false} WithoutListed(lru: seq<PageId>, i: nat)
    requires NoRepeats(lru) && i < |lru|
    ensures Without(lru, lru[i]) == Removed(lru, i)
  {
    var n := |lru| - 1;
    if i == n {
      assert lru[n] !in lru[..n];
      WithoutNothing(lru[..n], lru[n]);
    } else {
      WithoutListed(lru[..n], i);
      assert Removed(lru, i) == Removed(lru[..n], i) + [lru[n]];
    }
  }

  lemma {:induction false} WithoutOnce(lru: seq<PageId>, p: PageId)
    requires NoRepeats(lru)
    ensures NoRepeats(Without(lru, p)) && NoRepeats(Recent(lru, p))
    ensures forall q :: q in Without(lru, p) <==> q in lru && q != p
  {
    if lru != [] {
      var front, last := lru[..|lru| - 1], lru[|lru| - 1];
      assert lru == front + [last];
      assert forall i :: 0 <= i < |front| ==> lru[i] != lru[|front|];
      WithoutOnce(front, p);
      OneMoreListed(Without(front, p), last);
    }
    OneMoreListed(Without(lru, p), p);
  }

  lemma OneMoreListed(lru: seq<PageId>, p: PageId)
    requires NoRepeats(lru) && p !in lru
    ensures NoRepeats(lru + [p])
  {
  }

  // Position of the least recently used page that may be dropped.
  function Victim(lru: seq<PageId>, kept: set<PageId>): (i: nat)
    ensures i <= |lru| && (i < |lru| ==> lru[i] !in kept) && forall j :: 0 <= j < i ==> lru[j] in kept
  {
    if lru == [] || lru[0] !in kept then 0 else 1 + Victim(lru[1..], kept)
  }

  // evict_if_needed: drop pages in order of use until the cache is small enough.
  function Evicted(lru: seq<PageId>, cache: PageMap, kept: set<PageId>, most: nat): PageMap
    decreases |lru|
  {
    var i := Victim(lru, kept);
    if |cache| <= most || i == |lru| then cache else Evicted(Removed(lru, i), cache - {lru[i]}, kept, most)
  }

  // The list of pages after that.
  function StillListed(lru: seq<PageId>, cache: PageMap, kept: set<PageId>, most: nat): seq<PageId>
    decreases |lru|
  {
    var i := Victim(lru, kept);
    if |cache| <= most || i == |lru| then lru else StillListed(Removed(lru, i), cache - {lru[i]}, kept, most)
  }

  lemma OneDropped(lru: seq<PageId>, cache: PageMap, kept: set<PageId>, most: nat)
    ensures var i := Victim(lru, kept);
            if |cache| <= most || i == |lru| then
              Evicted(lru, cache, kept, most) == cache && StillListed(lru, cache, kept, most) == lru
            else
              && Evicted(lru, cache, kept, most) == Evicted(Removed(lru, i), cache - {lru[i]}, kept, most)
              && StillListed(lru, cache, kept, most) == StillListed(Removed(lru, i), cache - {lru[i]}, kept, most)
  {
  }

  // A page stays only if all pages used later stay, those that have to stay left aside; and no more than
  // asked stay, unless no page is left that could go.
  lemma {:induction false} OldestGoFirst(lru: seq<PageId>, cache: PageMap, kept: set<PageId>, most: nat)
    requires NoRepeats(lru)
    ensures var c := Evicted(lru, cache, kept, most);
            && (forall i, j :: 0 <= i < j < |lru| && lru[i] in c && lru[i] !in kept && lru[j] in cache ==> lru[j] in c)
            && (|c| <= most || forall p :: p in lru && p in c ==> p in kept)
            && (forall p :: p in cache && p !in lru ==> p in c)
            && (|cache| > most ==> |c| >= most)
    decreases |lru|
  {
    hide Removed;
    var v := Victim(lru, kept);
    if |cache| > most && v < |lru| {
      var rest, c := Removed(lru, v), Evicted(lru, cache, kept, most);
      ListedOnce(lru, v);
      OldestGoFirst(rest, cache - {lru[v]}, kept, most);
      EvictedPart(rest, cache - {lru[v]}, kept, most);
      OneLess(cache, lru[v]);
      forall i, j | 0 <= i < j < |lru| && lru[i] in c && lru[i] !in kept && lru[j] in cache ensures lru[j] in c {
        assert i != v && i >= v;
        RemovedAt(lru, v, i);
        RemovedAt(lru, v, j);
      }
    }
  }

  lemma RemovedAt(lru: seq<PageId>, v: nat, i: nat)
    requires v < i < |lru|
    ensures |Removed(lru, v)| == |lru| - 1 && Removed(lru, v)[i - 1] == lru[i]
  {
  }

  lemma OneLess(cache: PageMap, p: PageId)
    ensures |cache - {p}| >= |cache| - 1
  {
    if p in cache {
      SmallerByOne(cache, p);
    } else {
      assert cache - {p} == cache;
    }
  }

  lemma {:induction false} EvictedPart(lru: seq<PageId>, cache: PageMap, kept: set<PageId>, most: nat)
    ensures var c := Evicted(lru, cache, kept, most);
            && c.Keys <= cache.Keys && (forall p :: p in c ==> c[p] == cache[p])
            && (forall p :: p in cache && p in kept ==> p in c)
    decreases |lru|
  {
    var i := Victim(lru, kept);
    if |cache| > most && i < |lru| {
      EvictedPart(Removed(lru, i), cache - {lru[i]}, kept, most);
    }
  }

  // When every cached page is listed once and only page 1 has to stay, the cache ends up as small as asked.
  lemma {:induction false} EvictedSize(lru: seq<PageId>, cache: PageMap, most: nat)
    requires NoRepeats(lru) && most > 0 && 1 in cache && forall p :: p in lru <==> p in cache
    ensures var c := Evicted(lru, cache, {1}, most); |c| == (if |cache| <= most then |cache| else most) && 1 in c
    decreases |lru|
  {
    var i := Victim(lru, {1});
    EvictedPart(lru, cache, {1}, most);
    if |cache| > most {
      SomeVictim(lru, cache);
      var rest := Removed(lru, i);
      ListedOnce(lru, i);
      SmallerByOne(cache, lru[i]);
      EvictedSize(rest, cache - {lru[i]}, most);
    }
  }

  lemma SomeVictim(lru: seq<PageId>, cache: PageMap)
    requires |cache| > 1 && forall p :: p in lru <==> p in cache
    ensures Victim(lru, {1}) < |lru|
  {
    assert |cache.Keys| == |cache|;
    if forall p :: p in cache ==> p == 1 {
      SubsetCount(cache.Keys, {1});
    } else {
      var p :| p in cache && p != 1;
      var j :| 0 <= j < |lru| && lru[j] == p;
    }
  }

  lemma SubsetCount(a: set<PageId>, b: set<PageId>)
    requires a <= b
    ensures |a| <= |b|
  {
    assert b == a + (b - a);
  }

  lemma SmallerByOne(cache: PageMap, p: PageId)
    requires p in cache
    ensures |cache - {p}| == |cache| - 1
  {
    assert cache == (cache - {p})[p := cache[p]];
  }

  lemma ListedOnce(lru: seq<PageId>, i: nat)
    requires NoRepeats(lru) && i < |lru|
    ensures var rest := Removed(lru, i);
            NoRepeats(rest) && lru[i] !in rest && forall p :: p in lru <==> p in rest || p == lru[i]
  {
    var rest := Removed(lru, i);
    forall j, k | 0 <= j < k < |rest| ensures rest[j] != rest[k] {
      assert rest[j] == lru[if j < i then j else j + 1] && rest[k] == lru[if k < i then k else k + 1];
    }
    assert lru == lru[..i] + [lru[i]] + lru[i + 1..];
  }
}
