// Ranked results: by descending score, then by ascending id, cut to the best k (search_where of
// src/memory/bm25.rs).  Scores are reals here; rounding is not modelled.
module Ranking {
  import opened Bytes

  type Scored = (u64, real)

  predicate Before(a: Scored, b: Scored) {
    a.1 > b.1 || (a.1 == b.1 && a.0 < b.0)
  }

  ghost predicate Ordered(s: seq<Scored>) {
    forall i, j :: 0 <= i < j < |s| ==> Before(s[i], s[j])
  }

  ghost predicate DistinctIds(s: seq<Scored>) {
    forall i, j :: 0 <= i < j < |s| ==> s[i].0 != s[j].0
  }

  // The k best of s: in order, all from s, and nothing left out comes before any of them.
  ghost predicate Best(r: seq<Scored>, s: seq<Scored>, k: nat) {
    && |r| == (if |s| < k then |s| else k)
    && Ordered(r)
    && (forall x :: x in r ==> x in s)
    && (forall x, y :: x in r && y in s && y !in r ==> Before(x, y))
  }

  // There is one such list.
  lemma {:induction false} BestUnique(a: seq<Scored>, b: seq<Scored>, s: seq<Scored>, k: nat)
    requires Best(a, s, k) && Best(b, s, k)
    ensures a == b
  {
    forall i | 0 <= i < |a| ensures a[i] == b[i] {
      SamePrefix(a, b, s, k, i + 1);
    }
  }

  lemma {:induction false} SamePrefix(a: seq<Scored>, b: seq<Scored>, s: seq<Scored>, k: nat, n: nat)
    requires Best(a, s, k) && Best(b, s, k) && n <= |a|
    ensures a[..n] == b[..n]
  {
    if n > 0 {
      SamePrefix(a, b, s, k, n - 1);
      NotBefore(a, b, s, k, n - 1);
      NotBefore(b, a, s, k, n - 1);
      assert a[..n] == a[..n - 1] + [a[n - 1]] && b[..n] == b[..n - 1] + [b[n - 1]];
    }
  }

  // At the first place where two such lists could differ, neither entry comes before the other.
  lemma NotBefore(a: seq<Scored>, b: seq<Scored>, s: seq<Scored>, k: nat, i: nat)
    requires Best(a, s, k) && Best(b, s, k) && i < |a| && a[..i] == b[..i]
    ensures !Before(a[i], b[i])
  {
    forall j | 0 <= j < i ensures b[j] != a[i] {
      assert a[..i][j] == b[..i][j] && Before(a[j], a[i]);
    }
    if a[i] in b {
      var j :| 0 <= j < |b| && b[j] == a[i];
    } else {
      assert b[i] in b && a[i] in a;
    }
  }

  // ---- sorting ----

  function Placed(s: seq<Scored>, x: Scored): seq<Scored> {
    if s == [] || Before(s[|s| - 1], x) then s + [x] else Placed(s[..|s| - 1], x) + [s[|s| - 1]]
  }

  // sort_by the comparison of scores and ids.
  function Sorted(s: seq<Scored>): seq<Scored> {
    if s == [] then [] else Placed(Sorted(s[..|s| - 1]), s[|s| - 1])
  }

  lemma {:induction false} PlacedMembers(s: seq<Scored>, x: Scored)
    ensures multiset(Placed(s, x)) == multiset(s) + multiset{x}
    ensures forall y :: y in Placed(s, x) ==> y == x || y in s
  {
    if s != [] && !Before(s[|s| - 1], x) {
      var front, last := s[..|s| - 1], s[|s| - 1];
      assert s == front + [last];
      PlacedMembers(front, x);
    }
  }

  lemma {:induction false} PlacedOrdered(s: seq<Scored>, x: Scored)
    requires Ordered(s) && forall i :: 0 <= i < |s| ==> s[i].0 != x.0
    ensures Ordered(Placed(s, x))
  {
    if s != [] && !Before(s[|s| - 1], x) {
      var front, last := s[..|s| - 1], s[|s| - 1];
      PlacedOrdered(front, x);
      PlacedMembers(front, x);
      var r := Placed(front, x);
      forall i | 0 <= i < |r| ensures Before(r[i], last) {
        assert r[i] in r;
        if r[i] != x {
          var j :| 0 <= j < |front| && front[j] == r[i];
          assert Before(s[j], s[|s| - 1]);
        }
      }
    } else if s != [] {
      forall i | 0 <= i < |s| ensures Before(s[i], x) {
        assert i < |s| - 1 ==> Before(s[i], s[|s| - 1]);
      }
    }
  }

  lemma {:induction false} SortedOrdered(s: seq<Scored>)
    requires DistinctIds(s)
    ensures Ordered(Sorted(s)) && multiset(Sorted(s)) == multiset(s)
  {
    if s != [] {
      var front, last := s[..|s| - 1], s[|s| - 1];
      assert s == front + [last];
      SortedOrdered(front);
      forall i | 0 <= i < |Sorted(front)| ensures Sorted(front)[i].0 != last.0 {
        assert Sorted(front)[i] in multiset(Sorted(front));
        var j :| 0 <= j < |front| && front[j] == Sorted(front)[i];
        assert s[j].0 != s[|s| - 1].0;
      }
      PlacedOrdered(Sorted(front), last);
      PlacedMembers(Sorted(front), last);
    }
  }

  // ---- select, truncate, sort ----

  // select_nth_unstable_by: any rearrangement with nothing behind position k before anything in front of it.
  ghost predicate Selected(p: seq<Scored>, s: seq<Scored>, k: nat) {
    && multiset(p) == multiset(s) && k <= |p|
    && forall i, j :: 0 <= i < k <= j < |p| ==> Before(p[i], p[j])
  }

  lemma SameMembers(p: seq<Scored>, s: seq<Scored>)
    requires multiset(p) == multiset(s)
    ensures |p| == |s| && forall x :: x in p <==> x in s
  {
    assert |p| == |multiset(p)| == |multiset(s)| == |s|;
    forall x ensures x in p <==> x in s {
      assert x in p <==> x in multiset(p);
      assert x in s <==> x in multiset(s);
    }
  }

  lemma StillDistinct(p: seq<Scored>, s: seq<Scored>)
    requires multiset(p) == multiset(s) && DistinctIds(s)
    ensures DistinctIds(p)
  {
    SameMembers(p, s);
    forall i, j | 0 <= i < j < |p| ensures p[i].0 != p[j].0 {
      TwoPlaces(p, s, i, j);
    }
  }

  lemma TwiceCounted(p: seq<Scored>, i: nat, j: nat)
    requires i < j < |p|
    ensures p[i] == p[j] ==> multiset(p)[p[i]] >= 2
  {
    assert p == p[..i] + [p[i]] + p[i + 1..j] + [p[j]] + p[j + 1..];
  }

  lemma TwoPlaces(p: seq<Scored>, s: seq<Scored>, i: nat, j: nat)
    requires multiset(p) == multiset(s) && DistinctIds(s) && i < j < |p|
    ensures p[i].0 != p[j].0
  {
    SameMembers(p, s);
    TwiceCounted(p, i, j);
    OnceOnly(s, p[i]);
    assert p[i] in p && p[j] in p;
    var a :| 0 <= a < |s| && s[a] == p[i];
    var b :| 0 <= b < |s| && s[b] == p[j];
  }

  lemma {:induction false} OnceOnly(s: seq<Scored>, x: Scored)
    requires DistinctIds(s)
    ensures multiset(s)[x] <= 1
  {
    if s != [] {
      var front, last := s[..|s| - 1], s[|s| - 1];
      assert s == front + [last];
      OnceOnly(front, x);
      if last == x {
        assert forall i :: 0 <= i < |front| ==> s[i].0 != s[|s| - 1].0;
        assert x !in multiset(front);
      }
    }
  }

  // Sorting the selected front alone gives the k best in order, as sorting everything and cutting would.
  lemma SelectedThenSorted(p: seq<Scored>, s: seq<Scored>, k: nat)
    requires DistinctIds(s) && Selected(p, s, k)
    ensures Best(Sorted(p[..k]), s, k)
    ensures k <= |Sorted(s)| && Sorted(p[..k]) == Sorted(s)[..k]
  {
    StillDistinct(p, s);
    SameMembers(p, s);
    var front := p[..k];
    SortedOrdered(front);
    SameMembers(Sorted(front), front);
    forall j | 0 <= j < k ensures p[j] in Sorted(front) {
      assert front[j] == p[j];
    }
    forall x, y | x in Sorted(front) && y in s && y !in Sorted(front) ensures Before(x, y) {
      var i :| 0 <= i < k && p[i] == x;
      var j :| 0 <= j < |p| && p[j] == y;
    }
    SortedPrefix(s, k);
    BestUnique(Sorted(front), Sorted(s)[..k], s, k);
  }

  lemma SortedPrefix(s: seq<Scored>, k: nat)
    requires DistinctIds(s) && k <= |s|
    ensures k <= |Sorted(s)| && Best(Sorted(s)[..k], s, k)
  {
    SortedOrdered(s);
    var r := Sorted(s);
    SameMembers(r, s);
    forall j | 0 <= j < k ensures r[j] in r[..k] {
      assert r[..k][j] == r[j];
    }
    forall x, y | x in r[..k] && y in s && y !in r[..k] ensures Before(x, y) {
      var i :| 0 <= i < k && r[i] == x;
      var j :| 0 <= j < |r| && r[j] == y;
    }
  }
}
