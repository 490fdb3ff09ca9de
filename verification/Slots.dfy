// The slotted area of a page as a sequence of byte strings: a pointer array
// growing up from the header and cell contents growing down to the trailer.
module Slots {
  import opened Bytes
  import opened Cells
  import opened Keyed

  // The i-th two-byte cell pointer of the array that starts at position start.
  function Pointer(b: seq<byte>, start: nat, i: nat): u16
    requires start + 2 * i + 2 <= |b|
  {
    FromLe16(b[start + 2 * i..start + 2 * i + 2])
  }

  // Slot i lies inside the content area and holds exactly s.
  ghost predicate SlotHolds(b: seq<byte>, start: nat, content: nat, i: nat, s: seq<byte>)
    requires start + 2 * i + 2 <= |b|
  {
    var p := Pointer(b, start, i);
    && content <= p
    && p + |s| + PAGE_RESERVED_TRAILER <= |b|
    && b[p..p + |s|] == s
  }

  ghost predicate Apart(b: seq<byte>, start: nat, i: nat, m: nat, j: nat, n: nat)
    requires start + 2 * i + 2 <= |b| && start + 2 * j + 2 <= |b|
  {
    Pointer(b, start, i) + m <= Pointer(b, start, j) || Pointer(b, start, j) + n <= Pointer(b, start, i)
  }

  // The area holds the given byte strings, in pointer order, in pairwise
  // disjoint ranges of [content, |b| - trailer), clear of the pointer array.
  ghost predicate Slotted(b: seq<byte>, start: nat, slots: seq<seq<byte>>, content: nat) {
    && |b| < 0x1_0000
    && start + 2 * |slots| <= content
    && content + PAGE_RESERVED_TRAILER <= |b|
    && (forall i :: 0 <= i < |slots| ==> SlotHolds(b, start, content, i, slots[i]))
    && (forall i, j :: 0 <= i < j < |slots| ==> Apart(b, start, i, |slots[i]|, j, |slots[j]|))
  }

  lemma SlottedBounds(b: seq<byte>, start: nat, slots: seq<seq<byte>>, content: nat)
    requires Slotted(b, start, slots, content)
    ensures |b| < 0x1_0000 && start + 2 * |slots| <= content && content + PAGE_RESERVED_TRAILER <= |b|
  {
  }

  lemma SameBytes(b: seq<byte>, b': seq<byte>, lo: nat, hi: nat, p: nat, n: nat)
    requires |b'| == |b| && lo <= p && p + n <= hi <= |b|
    requires forall k :: lo <= k < hi ==> b'[k] == b[k]
    ensures b'[p..p + n] == b[p..p + n]
  {
  }

  // A slot survives when its pointer bytes are found at index j and the content area is kept.
  lemma SlotMoved(b: seq<byte>, b': seq<byte>, start: nat, content: nat, i: nat, j: nat, s: seq<byte>)
    requires |b'| == |b| && start + 2 * i + 2 <= |b| && start + 2 * j + 2 <= |b|
    requires SlotHolds(b, start, content, i, s)
    requires b'[start + 2 * j] == b[start + 2 * i] && b'[start + 2 * j + 1] == b[start + 2 * i + 1]
    requires forall k :: content <= k < |b| - PAGE_RESERVED_TRAILER ==> b'[k] == b[k]
    ensures Pointer(b', start, j) == Pointer(b, start, i)
    ensures SlotHolds(b', start, content, j, s)
  {
    assert b'[start + 2 * j..start + 2 * j + 2] == b[start + 2 * i..start + 2 * i + 2];
    SameBytes(b, b', content, |b| - PAGE_RESERVED_TRAILER, Pointer(b, start, i), |s|);
  }

  // Bytes outside the pointer array do not matter to pointers, and bytes below
  // the content area do not matter to slots.
  lemma SlottedFrame(b: seq<byte>, b': seq<byte>, start: nat, slots: seq<seq<byte>>, content: nat)
    requires Slotted(b, start, slots, content)
    requires |b'| == |b|
    requires forall k :: start <= k < start + 2 * |slots| ==> b'[k] == b[k]
    requires forall k :: content <= k < |b| - PAGE_RESERVED_TRAILER ==> b'[k] == b[k]
    ensures Slotted(b', start, slots, content)
  {
    forall i | 0 <= i < |slots|
      ensures Pointer(b', start, i) == Pointer(b, start, i)
      ensures SlotHolds(b', start, content, i, slots[i])
    {
      SlotMoved(b, b', start, content, i, i, slots[i]);
    }
    forall i, j | 0 <= i < j < |slots|
      ensures Apart(b', start, i, |slots[i]|, j, |slots[j]|)
    {
      assert Apart(b, start, i, |slots[i]|, j, |slots[j]|);
    }
  }

  // Pointer i of b is pointer j of b', which points to slot s.
  ghost predicate Kept(b: seq<byte>, b': seq<byte>, start: nat, content: nat, content': nat, i: nat, j: nat,
                       s: seq<byte>)
    requires start + 2 * i + 2 <= |b| && start + 2 * j + 2 <= |b'|
  {
    && content <= Pointer(b', start, j) == Pointer(b, start, i)
    && SlotHolds(b', start, content', j, s)
  }

  // ---- dropping a pointer ----

  // The pointer array after the entries behind idx moved down one place.
  function ClosedUp(b: seq<byte>, start: nat, n: nat, idx: nat): (r: seq<byte>)
    requires idx < n && start + 2 * n <= |b|
    ensures |r| == |b|
  {
    Splice(b, start + 2 * idx, b[start + 2 * idx + 2..start + 2 * n])
  }

  method CloseUp(buf: array<byte>, start: nat, n: nat, idx: nat)
    requires idx < n && start + 2 * n <= buf.Length
    modifies buf
    ensures buf[..] == ClosedUp(old(buf[..]), start, n, idx)
  {
    ghost var b := buf[..];
    for i := idx to n - 1
      invariant forall k :: start + 2 * idx <= k < start + 2 * i ==> buf[k] == b[k + 2]
      invariant forall k :: 0 <= k < buf.Length && !(start + 2 * idx <= k < start + 2 * i) ==> buf[k] == b[k]
    {
      var p1 := start + i * 2;
      var p2 := start + (i + 1) * 2;
      buf[p1] := buf[p2];
      buf[p1 + 1] := buf[p2 + 1];
    }
    assert forall k :: 0 <= k < buf.Length ==> buf[k] == ClosedUp(b, start, n, idx)[k];
  }

  lemma ClosedUpBytes(b: seq<byte>, start: nat, n: nat, idx: nat)
    requires idx < n && start + 2 * n <= |b|
    ensures var r := ClosedUp(b, start, n, idx);
            && (forall k :: 0 <= k < start + 2 * idx ==> r[k] == b[k])
            && (forall k :: start + 2 * idx <= k < start + 2 * n - 2 ==> r[k] == b[k + 2])
            && (forall k :: start + 2 * n - 2 <= k < |b| ==> r[k] == b[k])
  {
    SpliceAt(b, start + 2 * idx, b[start + 2 * idx + 2..start + 2 * n]);
  }

  lemma ClosedUpSlots(b: seq<byte>, start: nat, slots: seq<seq<byte>>, content: nat, idx: nat)
    requires Slotted(b, start, slots, content) && idx < |slots|
    ensures Slotted(ClosedUp(b, start, |slots|, idx), start, Removed(slots, idx), content)
  {
    ClosedUpBytes(b, start, |slots|, idx);
    SlotsAfterRemoval(b, ClosedUp(b, start, |slots|, idx), start, slots, content, idx, Removed(slots, idx));
  }

  lemma SlotsAfterRemoval(b: seq<byte>, b': seq<byte>, start: nat, slots: seq<seq<byte>>, content: nat, idx: nat,
                          rest: seq<seq<byte>>)
    requires Slotted(b, start, slots, content) && idx < |slots| && |b'| == |b|
    requires |rest| == |slots| - 1
    requires forall j :: 0 <= j < |rest| ==> rest[j] == slots[if j < idx then j else j + 1]
    requires forall k :: 0 <= k < start + 2 * idx ==> b'[k] == b[k]
    requires forall k :: start + 2 * idx <= k < start + 2 * |slots| - 2 ==> b'[k] == b[k + 2]
    requires forall k :: start + 2 * |slots| - 2 <= k < |b| ==> b'[k] == b[k]
    ensures Slotted(b', start, rest, content)
  {
    forall j | 0 <= j < |rest|
      ensures Kept(b, b', start, content, content, if j < idx then j else j + 1, j, rest[j])
    {
      var i := if j < idx then j else j + 1;
      assert SlotHolds(b, start, content, i, slots[i]);
      SlotMoved(b, b', start, content, i, j, slots[i]);
    }
    RemainApart(b, b', start, slots, content, idx, rest);
  }

  lemma RemainApart(b: seq<byte>, b': seq<byte>, start: nat, slots: seq<seq<byte>>, content: nat, idx: nat,
                    rest: seq<seq<byte>>)
    requires Slotted(b, start, slots, content) && idx < |slots| && |b'| == |b|
    requires |rest| == |slots| - 1
    requires forall j :: 0 <= j < |rest| ==> rest[j] == slots[if j < idx then j else j + 1]
    requires forall j :: 0 <= j < |rest| ==>
      Kept(b, b', start, content, content, if j < idx then j else j + 1, j, rest[j])
    ensures Slotted(b', start, rest, content)
  {
    forall i, j | 0 <= i < j < |rest|
      ensures Apart(b', start, i, |rest[i]|, j, |rest[j]|)
    {
      var i', j' := if i < idx then i else i + 1, if j < idx then j else j + 1;
      assert Kept(b, b', start, content, content, i', i, rest[i]);
      assert Kept(b, b', start, content, content, j', j, rest[j]);
      assert Apart(b, start, i', |slots[i']|, j', |slots[j']|);
    }
    forall j | 0 <= j < |rest|
      ensures SlotHolds(b', start, content, j, rest[j])
    {
      assert Kept(b, b', start, content, content, if j < idx then j else j + 1, j, rest[j]);
    }
  }

  // ---- opening a pointer slot ----

  // The pointer array after the entries from idx on moved up one place.
  function OpenedUp(b: seq<byte>, start: nat, n: nat, idx: nat): (r: seq<byte>)
    requires idx <= n && start + 2 * n + 2 <= |b|
    ensures |r| == |b|
  {
    Splice(b, start + 2 * idx + 2, b[start + 2 * idx..start + 2 * n])
  }

  method OpenUp(buf: array<byte>, start: nat, n: nat, idx: nat)
    requires idx <= n && start + 2 * n + 2 <= buf.Length
    modifies buf
    ensures buf[..] == OpenedUp(old(buf[..]), start, n, idx)
  {
    ghost var b := buf[..];
    for i := n downto idx
      invariant forall k :: start + 2 * i + 2 <= k < start + 2 * n + 2 ==> buf[k] == b[k - 2]
      invariant forall k :: 0 <= k < buf.Length && !(start + 2 * i + 2 <= k < start + 2 * n + 2) ==> buf[k] == b[k]
    {
      var curr := start + (i + 1) * 2;
      var prev := start + i * 2;
      buf[curr] := buf[prev];
      buf[curr + 1] := buf[prev + 1];
    }
    assert forall k :: 0 <= k < buf.Length ==> buf[k] == OpenedUp(b, start, n, idx)[k];
  }

  // The page bytes after cell content s was written below the content area
  // and a pointer to it was put at position idx of the pointer array.
  function WithSlot(b: seq<byte>, start: nat, n: nat, content: nat, idx: nat, s: seq<byte>): (r: seq<byte>)
    requires idx <= n && start + 2 * n + 2 + |s| <= content < 0x1_0000 && content <= |b|
    ensures |r| == |b|
  {
    Splice(OpenedUp(Splice(b, content - |s|, s), start, n, idx), start + 2 * idx, Le16(content - |s|))
  }

  // Nothing moves when the new pointer goes to the end of the array.
  lemma OpenedUpAtEnd(b: seq<byte>, start: nat, n: nat)
    requires start + 2 * n + 2 <= |b|
    ensures OpenedUp(b, start, n, n) == b
  {
  }

  // The three writes that make up WithSlot, in program order.
  lemma WithSlotSteps(b: seq<byte>, start: nat, n: nat, content: nat, idx: nat, s: seq<byte>)
    requires idx <= n && start + 2 * n + 2 + |s| <= content < 0x1_0000 && content <= |b|
    ensures Splice(OpenedUp(Splice(b, content - |s|, s), start, n, idx), start + 2 * idx, Le16(content - |s|))
         == WithSlot(b, start, n, content, idx, s)
  {
  }

  lemma WithSlotBytes(b: seq<byte>, start: nat, n: nat, content: nat, idx: nat, s: seq<byte>)
    requires idx <= n && start + 2 * n + 2 + |s| <= content < 0x1_0000 && content <= |b|
    ensures SlotAdded(b, WithSlot(b, start, n, content, idx, s), start, n, content, idx, s)
  {
    var b1 := Splice(b, content - |s|, s);
    var b2 := OpenedUp(b1, start, n, idx);
    SpliceAt(b, content - |s|, s);
    OpenedUpBytes(b1, start, n, idx);
    SpliceAt(b2, start + 2 * idx, Le16(content - |s|));
  }

  lemma OpenedUpBytes(b: seq<byte>, start: nat, n: nat, idx: nat)
    requires idx <= n && start + 2 * n + 2 <= |b|
    ensures var r := OpenedUp(b, start, n, idx);
            && (forall k :: 0 <= k < start + 2 * idx + 2 ==> r[k] == b[k])
            && (forall k :: start + 2 * idx + 2 <= k < start + 2 * n + 2 ==> r[k] == b[k - 2])
            && (forall k :: start + 2 * n + 2 <= k < |b| ==> r[k] == b[k])
  {
    SpliceAt(b, start + 2 * idx + 2, b[start + 2 * idx..start + 2 * n]);
  }

  // Byte by byte, r is b with cell s below the content area and its pointer at index idx.
  ghost predicate SlotAdded(b: seq<byte>, r: seq<byte>, start: nat, n: nat, content: nat, idx: nat, s: seq<byte>)
    requires idx <= n && start + 2 * n + 2 + |s| <= content <= |b| == |r|
  {
    && (forall k :: 0 <= k < start + 2 * idx ==> r[k] == b[k])
    && r[start + 2 * idx] == (content - |s|) % 0x100
    && r[start + 2 * idx + 1] == (content - |s|) / 0x100
    && (forall k :: start + 2 * idx + 2 <= k < start + 2 * n + 2 ==> r[k] == b[k - 2])
    && (forall k :: start + 2 * n + 2 <= k < content - |s| ==> r[k] == b[k])
    && (forall k :: 0 <= k < |s| ==> r[content - |s| + k] == s[k])
    && (forall k :: content <= k < |b| ==> r[k] == b[k])
  }

  lemma WithSlotSlots(b: seq<byte>, start: nat, slots: seq<seq<byte>>, content: nat, idx: nat, s: seq<byte>)
    requires Slotted(b, start, slots, content) && idx <= |slots|
    requires start + 2 * |slots| + 2 + |s| <= content
    ensures Slotted(WithSlot(b, start, |slots|, content, idx, s), start, Inserted(slots, idx, s), content - |s|)
  {
    WithSlotBytes(b, start, |slots|, content, idx, s);
    SlotsAfterInsertion(b, WithSlot(b, start, |slots|, content, idx, s), start, slots, content, idx, s,
                        Inserted(slots, idx, s));
  }

  lemma SlotsAfterInsertion(b: seq<byte>, b': seq<byte>, start: nat, slots: seq<seq<byte>>, content: nat, idx: nat,
                            s: seq<byte>, more: seq<seq<byte>>)
    requires Slotted(b, start, slots, content) && idx <= |slots| && |b'| == |b|
    requires start + 2 * |slots| + 2 + |s| <= content
    requires |more| == |slots| + 1 && more[idx] == s
    requires forall j :: 0 <= j <= |slots| && j != idx ==> more[j] == slots[if j < idx then j else j - 1]
    requires SlotAdded(b, b', start, |slots|, content, idx, s)
    ensures Slotted(b', start, more, content - |s|)
  {
    NewSlotHolds(b, b', start, |slots|, content, idx, s);
    AllKept(b, b', start, slots, content, idx, s);
    Reassembled(b, b', start, slots, content, idx, s, more);
  }

  lemma AllKept(b: seq<byte>, b': seq<byte>, start: nat, slots: seq<seq<byte>>, content: nat, idx: nat, s: seq<byte>)
    requires Slotted(b, start, slots, content) && idx <= |slots| && |b'| == |b|
    requires start + 2 * |slots| + 2 + |s| <= content
    requires SlotAdded(b, b', start, |slots|, content, idx, s)
    ensures forall i :: 0 <= i < |slots| ==>
      Kept(b, b', start, content, content - |s|, i, if i < idx then i else i + 1, slots[i])
  {
    forall i | 0 <= i < |slots|
      ensures Kept(b, b', start, content, content - |s|, i, if i < idx then i else i + 1, slots[i])
    {
      assert SlotHolds(b, start, content, i, slots[i]);
      KeptSlotHolds(b, b', start, |slots|, content, idx, s, i, slots[i]);
    }
  }

  lemma Reassembled(b: seq<byte>, b': seq<byte>, start: nat, slots: seq<seq<byte>>, content: nat, idx: nat,
                    s: seq<byte>, more: seq<seq<byte>>)
    requires Slotted(b, start, slots, content) && idx <= |slots| && |b'| == |b|
    requires start + 2 * |slots| + 2 + |s| <= content
    requires |more| == |slots| + 1 && more[idx] == s
    requires forall j :: 0 <= j <= |slots| && j != idx ==> more[j] == slots[if j < idx then j else j - 1]
    requires Pointer(b', start, idx) == content - |s| && SlotHolds(b', start, content - |s|, idx, s)
    requires forall i :: 0 <= i < |slots| ==>
      Kept(b, b', start, content, content - |s|, i, if i < idx then i else i + 1, slots[i])
    ensures Slotted(b', start, more, content - |s|)
  {
    forall j | 0 <= j <= |slots|
      ensures SlotHolds(b', start, content - |s|, j, more[j])
    {
      if j != idx {
        var i := if j < idx then j else j - 1;
        assert Kept(b, b', start, content, content - |s|, i, j, slots[i]);
      }
    }
    forall i, j | 0 <= i < j <= |slots|
      ensures Apart(b', start, i, |more[i]|, j, |more[j]|)
    {
      StillApart(b, b', start, slots, content, idx, s, i, j);
    }
  }

  lemma StillApart(b: seq<byte>, b': seq<byte>, start: nat, slots: seq<seq<byte>>, content: nat, idx: nat,
                   s: seq<byte>, i: nat, j: nat)
    requires Slotted(b, start, slots, content) && idx <= |slots| && |b'| == |b| && i < j <= |slots|
    requires start + 2 * |slots| + 2 + |s| <= content
    requires Pointer(b', start, idx) == content - |s|
    requires forall k :: 0 <= k < |slots| ==>
      Kept(b, b', start, content, content - |s|, k, if k < idx then k else k + 1, slots[k])
    ensures var m := if i < idx then |slots[i]| else if i == idx then |s| else |slots[i - 1]|;
            var n := if j < idx then |slots[j]| else if j == idx then |s| else |slots[j - 1]|;
            Apart(b', start, i, m, j, n)
  {
    var i', j' := if i < idx then i else i - 1, if j < idx then j else j - 1;
    if i != idx {
      assert Kept(b, b', start, content, content - |s|, i', i, slots[i']);
    }
    if j != idx {
      assert Kept(b, b', start, content, content - |s|, j', j, slots[j']);
    }
    if i != idx && j != idx {
      assert Apart(b, start, i', |slots[i']|, j', |slots[j']|);
    }
  }

  lemma KeptSlotHolds(b: seq<byte>, b': seq<byte>, start: nat, n: nat, content: nat, idx: nat, s: seq<byte>,
                      i: nat, kept: seq<byte>)
    requires idx <= n && i < n && start + 2 * n + 2 + |s| <= content <= |b| - PAGE_RESERVED_TRAILER
    requires |b'| == |b| < 0x1_0000
    requires SlotAdded(b, b', start, n, content, idx, s)
    requires SlotHolds(b, start, content, i, kept)
    ensures Kept(b, b', start, content, content - |s|, i, if i < idx then i else i + 1, kept)
  {
    SlotMoved(b, b', start, content, i, if i < idx then i else i + 1, kept);
  }

  lemma NewSlotHolds(b: seq<byte>, b': seq<byte>, start: nat, n: nat, content: nat, idx: nat, s: seq<byte>)
    requires idx <= n && start + 2 * n + 2 + |s| <= content <= |b| - PAGE_RESERVED_TRAILER
    requires |b'| == |b| < 0x1_0000
    requires SlotAdded(b, b', start, n, content, idx, s)
    ensures Pointer(b', start, idx) == content - |s|
    ensures SlotHolds(b', start, content - |s|, idx, s)
  {
    assert b'[content - |s|..content] == s;
  }

  // ---- sizes ----

  function Total(slots: seq<seq<byte>>): nat {
    if |slots| == 0 then 0 else Total(slots[..|slots| - 1]) + |slots[|slots| - 1]|
  }

  lemma {:induction false} TotalConcat(a: seq<seq<byte>>, b: seq<seq<byte>>)
    ensures Total(a + b) == Total(a) + Total(b)
  {
    if b == [] {
      assert a + b == a;
    } else {
      var front, last := b[..|b| - 1], b[|b| - 1];
      assert (a + b)[..|a + b| - 1] == a + front;
      TotalConcat(a, front);
    }
  }

  lemma TotalOne(s: seq<byte>)
    ensures Total([s]) == |s|
  {
    assert [s][..0] == [];
  }

  lemma TotalInserted(slots: seq<seq<byte>>, i: nat, s: seq<byte>)
    requires i <= |slots|
    ensures Total(Inserted(slots, i, s)) == Total(slots) + |s|
  {
    var front, back := slots[..i], slots[i..];
    assert slots == front + back && Inserted(slots, i, s) == front + ([s] + back);
    TotalConcat(front, back);
    TotalConcat(front, [s] + back);
    TotalConcat([s], back);
    TotalOne(s);
  }

  lemma TotalRemoved(slots: seq<seq<byte>>, i: nat)
    requires i < |slots|
    ensures Total(Removed(slots, i)) + |slots[i]| == Total(slots)
  {
    TotalInserted(Removed(slots, i), i, slots[i]);
    assert Inserted(Removed(slots, i), i, slots[i]) == slots;
  }

  lemma TotalPrefix(slots: seq<seq<byte>>, i: nat)
    requires i <= |slots|
    ensures Total(slots[..i]) <= Total(slots)
  {
    assert slots == slots[..i] + slots[i..];
    TotalConcat(slots[..i], slots[i..]);
  }
}
