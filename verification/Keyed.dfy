// Sequences addressed by position and by u64 key.
module Keyed {
  import opened Bytes

  function Removed<T>(s: seq<T>, i: nat): (r: seq<T>)
    requires i < |s|
    ensures |r| == |s| - 1
  {
    s[..i] + s[i + 1..]
  }

  function Inserted<T>(s: seq<T>, i: nat, x: T): (r: seq<T>)
    requires i <= |s|
    ensures |r| == |s| + 1
  {
    s[..i] + [x] + s[i..]
  }

  // ---- positions of keys ----

  ghost predicate Ascending(keys: seq<u64>) {
    forall i, j :: 0 <= i < j < |keys| ==> keys[i] < keys[j]
  }

  ghost predicate NotDescending(keys: seq<u64>) {
    forall i, j :: 0 <= i < j < |keys| ==> keys[i] <= keys[j]
  }

  ghost predicate NoRepeats<T>(s: seq<T>) {
    forall i, j :: 0 <= i < j < |s| ==> s[i] != s[j]
  }

  // The first position whose key is not below the given one.
  function Rank(keys: seq<u64>, key: u64): (i: nat)
    ensures i <= |keys|
    ensures forall j :: 0 <= j < i ==> keys[j] < key
    ensures i < |keys| ==> key <= keys[i]
  {
    if keys == [] || key <= keys[0] then 0 else 1 + Rank(keys[1..], key)
  }

  predicate Has(keys: seq<u64>, key: u64) {
    var i := Rank(keys, key);
    i < |keys| && keys[i] == key
  }

  lemma RankIs(keys: seq<u64>, key: u64, i: nat)
    requires i <= |keys|
    requires forall j :: 0 <= j < i ==> keys[j] < key
    requires i < |keys| ==> key <= keys[i]
    ensures Rank(keys, key) == i
  {
  }

  lemma HasIff(keys: seq<u64>, key: u64)
    requires Ascending(keys)
    ensures Has(keys, key) <==> key in keys
  {
    if key in keys {
      var k :| 0 <= k < |keys| && keys[k] == key;
      RankIs(keys, key, k);
    }
  }

  // The first position whose key is above the given one.
  function Above(keys: seq<u64>, key: u64): (i: nat)
    ensures i <= |keys|
    ensures forall j :: 0 <= j < i ==> keys[j] <= key
    ensures i < |keys| ==> key < keys[i]
  {
    if keys == [] || key < keys[0] then 0 else 1 + Above(keys[1..], key)
  }

  lemma AboveIs(keys: seq<u64>, key: u64, i: nat)
    requires i <= |keys|
    requires forall j :: 0 <= j < i ==> keys[j] <= key
    requires i < |keys| ==> key < keys[i]
    ensures Above(keys, key) == i
  {
  }

  lemma SplitAround<T>(s: seq<T>, i: nat)
    requires i < |s|
    ensures s == s[..i] + ([s[i]] + s[i + 1..])
  {
  }

  lemma SplitAt<T>(s: seq<T>, i: nat)
    requires i <= |s|
    ensures s == s[..i] + s[i..]
  {
  }

  lemma InsertedParts<T>(s: seq<T>, i: nat, x: T)
    requires i <= |s|
    ensures Inserted(s, i, x) == s[..i] + ([x] + s[i..])
  {
  }

  lemma InsertedAtEnd<T>(s: seq<T>, x: T)
    ensures Inserted(s, |s|, x) == s + [x]
  {
  }

  lemma InsertedBeforeTail<T>(s: seq<T>, x: T, tail: T)
    ensures Inserted(s + [tail], |s|, x) == s + [x] + [tail]
  {
  }

  lemma FrontAndLast<T>(s: seq<T>)
    requires s != []
    ensures s == s[..|s| - 1] + [s[|s| - 1]]
  {
  }

  lemma PrefixSnoc<T>(s: seq<T>, m: nat)
    requires m < |s|
    ensures s[..m] + [s[m]] == s[..m + 1]
  {
  }

  lemma SuffixSnoc<T>(s: seq<T>, m: nat)
    requires m < |s|
    ensures s[m..|s| - 1] + [s[|s| - 1]] == s[m..]
  {
  }

  lemma SliceOne<T>(s: seq<T>, i: nat)
    requires i < |s|
    ensures s[i..i + 1] == [s[i]]
  {
  }

  lemma SliceSnoc<T>(s: seq<T>, a: nat, b: nat)
    requires a < b <= |s|
    ensures s[a..b] == s[a..b - 1] + [s[b - 1]]
  {
  }

  lemma SliceAll<T>(s: seq<T>)
    ensures s[0..|s|] == s[..|s|] == s
  {
  }

  // ---- stable sorting by key ----

  // x joined to s behind the last element whose key is not greater.
  function JoinedStably<T>(s: seq<T>, key: T -> u64, x: T): (r: seq<T>)
    ensures |r| == |s| + 1
  {
    if s == [] || key(s[|s| - 1]) <= key(x) then s + [x]
    else JoinedStably(s[..|s| - 1], key, x) + [s[|s| - 1]]
  }

  // sort_by_key: a stable sort.
  function SortedByKey<T>(s: seq<T>, key: T -> u64): (r: seq<T>)
    ensures |r| == |s|
  {
    if s == [] then [] else JoinedStably(SortedByKey(s[..|s| - 1], key), key, s[|s| - 1])
  }

  function KeysOf<T>(s: seq<T>, key: T -> u64): (r: seq<u64>)
    ensures |r| == |s|
    ensures forall i :: 0 <= i < |s| ==> r[i] == key(s[i])
  {
    seq(|s|, i requires 0 <= i < |s| => key(s[i]))
  }

  lemma {:induction false} SortedIsUnchanged<T>(s: seq<T>, key: T -> u64)
    requires Ascending(KeysOf(s, key))
    ensures SortedByKey(s, key) == s
  {
    if s != [] {
      var front := s[..|s| - 1];
      KeysOfPrefix(s, key, |s| - 1);
      SortedIsUnchanged(front, key);
      if front != [] {
        assert KeysOf(s, key)[|s| - 2] < KeysOf(s, key)[|s| - 1];
      }
      assert front + [s[|s| - 1]] == s;
    }
  }

  lemma {:induction false} JoinedStablyIs<T>(s: seq<T>, key: T -> u64, x: T)
    requires Ascending(KeysOf(s, key))
    ensures JoinedStably(s, key, x) == Inserted(s, Above(KeysOf(s, key), key(x)), x)
  {
    var keys := KeysOf(s, key);
    if s == [] || key(s[|s| - 1]) <= key(x) {
      forall j | 0 <= j < |s| ensures keys[j] <= key(x) {
        assert keys[j] <= keys[|s| - 1];
      }
      AboveIs(keys, key(x), |s|);
    } else {
      var front := s[..|s| - 1];
      KeysOfPrefix(s, key, |s| - 1);
      AscendingSlice(keys, 0, |s| - 1);
      JoinedStablyIs(front, key, x);
      AboveInPrefix(keys, key(x), |s| - 1);
      InsertedBeforeLast(s, Above(keys, key(x)), x);
    }
  }

  lemma KeysOfPrefix<T>(s: seq<T>, key: T -> u64, n: nat)
    requires n <= |s|
    ensures KeysOf(s[..n], key) == KeysOf(s, key)[0..n]
  {
  }

  lemma AscendingSlice(keys: seq<u64>, lo: nat, hi: nat)
    requires Ascending(keys) && lo <= hi <= |keys|
    ensures Ascending(keys[lo..hi])
  {
  }

  lemma AboveInPrefix(keys: seq<u64>, key: u64, n: nat)
    requires n < |keys| && key < keys[n]
    ensures Above(keys, key) <= n
    ensures Above(keys[0..n], key) == Above(keys, key)
  {
    var i := Above(keys[0..n], key);
    assert forall j :: 0 <= j < i ==> keys[j] == keys[0..n][j];
    AboveIs(keys, key, i);
  }

  lemma InsertedBeforeLast<T>(s: seq<T>, i: nat, x: T)
    requires i < |s|
    ensures Inserted(s[..|s| - 1], i, x) + [s[|s| - 1]] == Inserted(s, i, x)
  {
  }

  // Pushing one element behind an ascending sequence and sorting puts it behind its equals.
  lemma PushAndSort<T>(s: seq<T>, key: T -> u64, x: T)
    requires Ascending(KeysOf(s, key))
    ensures SortedByKey(s + [x], key) == Inserted(s, Above(KeysOf(s, key), key(x)), x)
  {
    assert (s + [x])[..|s|] == s;
    SortedIsUnchanged(s, key);
    JoinedStablyIs(s, key, x);
  }
}
