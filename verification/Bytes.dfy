// Machine integers, little-endian fields and in-place copies into page buffers.
module Bytes {
  type byte = x: int | 0 <= x < 0x100
  type u16 = x: int | 0 <= x < 0x1_0000
  type u32 = x: int | 0 <= x < 0x1_0000_0000
  type u64 = x: int | 0 <= x < 0x1_0000_0000_0000_0000

  function Le16(v: u16): (s: seq<byte>)
    ensures |s| == 2
  {
    [v % 0x100, v / 0x100]
  }

  function FromLe16(s: seq<byte>): u16
    requires |s| == 2
  {
    var low: int, high: int := s[0], s[1];
    low + 0x100 * high
  }

  function Le32(v: u32): (s: seq<byte>)
    ensures |s| == 4
  {
    Le16(v % 0x1_0000) + Le16(v / 0x1_0000)
  }

  function FromLe32(s: seq<byte>): u32
    requires |s| == 4
  {
    var low: int, high: int := FromLe16(s[..2]), FromLe16(s[2..]);
    low + 0x1_0000 * high
  }

  lemma Le32RoundTrip(v: u32)
    ensures FromLe32(Le32(v)) == v
  {
    assert Le32(v)[..2] == Le16(v % 0x1_0000);
    assert Le32(v)[2..] == Le16(v / 0x1_0000);
  }

  lemma Le16RoundTrip(v: u16)
    ensures FromLe16(Le16(v)) == v
  {
  }

  // b with the bytes from position at on replaced by s.
  function Splice(b: seq<byte>, at: nat, s: seq<byte>): (r: seq<byte>)
    requires at + |s| <= |b|
    ensures |r| == |b|
    ensures r[at..at + |s|] == s
  {
    b[..at] + s + b[at + |s|..]
  }

  lemma SpliceAt(b: seq<byte>, at: nat, s: seq<byte>)
    requires at + |s| <= |b|
    ensures forall k :: 0 <= k < |b| ==> Splice(b, at, s)[k] == if at <= k < at + |s| then s[k - at] else b[k]
  {
  }

  lemma SpliceElsewhere(b: seq<byte>, at: nat, s: seq<byte>, lo: nat, hi: nat)
    requires at + |s| <= |b| && lo <= hi <= |b|
    requires hi <= at || at + |s| <= lo
    ensures Splice(b, at, s)[lo..hi] == b[lo..hi]
  {
    var r := Splice(b, at, s);
    assert forall i | lo <= i < hi :: r[i] == b[i];
  }

  // b' differs from b at most in [lo, hi).
  ghost predicate OnlyWithin(b: seq<byte>, b': seq<byte>, lo: int, hi: int) {
    && |b'| == |b|
    && forall k :: 0 <= k < |b| && !(lo <= k < hi) ==> b'[k] == b[k]
  }

  lemma SameIsWithin(b: seq<byte>, lo: int, hi: int)
    ensures OnlyWithin(b, b, lo, hi)
  {
  }

  lemma WithinTransitive(b: seq<byte>, b': seq<byte>, b'': seq<byte>, lo: int, hi: int)
    requires OnlyWithin(b, b', lo, hi) && OnlyWithin(b', b'', lo, hi)
    ensures OnlyWithin(b, b'', lo, hi)
  {
  }

  lemma SpliceWithin(b: seq<byte>, at: nat, s: seq<byte>, lo: int, hi: int)
    requires at + |s| <= |b| && lo <= at && at + |s| <= hi
    ensures OnlyWithin(b, Splice(b, at, s), lo, hi)
  {
    SpliceAt(b, at, s);
  }

  // copy_from_slice into a sub-range of a buffer.
  method CopyInto(buf: array<byte>, at: nat, s: seq<byte>)
    requires at + |s| <= buf.Length
    modifies buf
    ensures buf[..] == Splice(old(buf[..]), at, s)
  {
    forall i | 0 <= i < |s| {
      buf[at + i] := s[i];
    }
  }

  function Zeros(n: nat): (s: seq<byte>)
    ensures |s| == n
  {
    seq(n, _ => 0)
  }

  // b[lo..hi] is all zero.
  ghost predicate ZeroBetween(b: seq<byte>, lo: int, hi: int) {
    forall k :: 0 <= k < |b| && lo <= k < hi ==> b[k] == 0
  }

  lemma NothingFilled(b: seq<byte>, at: nat)
    requires at <= |b|
    ensures Splice(b, at, Zeros(0)) == b
  {
  }

  method FillZero(buf: array<byte>, lo: nat, hi: nat)
    requires lo <= hi <= buf.Length
    modifies buf
    ensures buf[..] == Splice(old(buf[..]), lo, Zeros(hi - lo))
  {
    forall i | lo <= i < hi {
      buf[i] := 0;
    }
  }
}
