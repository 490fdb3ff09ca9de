// src/btree/varint.rs: the 1-to-9 byte big-endian integers of the SQLite file
// format (section 1.6 of the SQLite Database File Format).
module Varint {
  import opened Wrappers
  import opened Bytes

  const NINE_BYTES: u64 := 0x0100_0000_0000_0000  // the least value that needs 9 bytes

  function Pow128(n: nat): nat {
    if n == 0 then 1 else 128 * Pow128(n - 1)
  }

  // Number of base-128 digits of v.
  function Digits(v: nat): (n: nat)
    ensures n >= 1
  {
    if v < 128 then 1 else 1 + Digits(v / 128)
  }

  // The n low base-128 digits of v, most significant first, each with the continuation bit set.
  function Continued(v: nat, n: nat): (s: seq<byte>)
    ensures |s| == n
  {
    if n == 0 then [] else Continued(v / 128, n - 1) + [128 + v % 128]
  }

  // The encoding of v.
  function Encoding(v: u64): (s: seq<byte>)
    ensures 1 <= |s| <= 9
  {
    if v < NINE_BYTES then
      DigitsBound(v, 8);
      Continued(v / 128, Digits(v) - 1) + [v % 128]
    else
      Continued(v / 0x100, 8) + [v % 0x100]
  }

  // What a decoder positioned after i bytes with value acc reads next.
  function DecodeFrom(s: seq<byte>, i: nat, acc: nat): Option<(nat, nat)>
    requires i <= 8
    decreases |s| - i
  {
    if i >= |s| then None
    else if i == 8 then Some((acc * 0x100 + s[i], 9))
    else
      var v := acc * 128 + s[i] % 128;
      if s[i] < 128 then Some((v, i + 1)) else DecodeFrom(s, i + 1, v)
  }

  lemma {:induction false} DecodedBounds(s: seq<byte>, i: nat, acc: nat)
    requires i <= 8 && acc < Pow128(i)
    ensures DecodeFrom(s, i, acc).Some? ==>
              && DecodeFrom(s, i, acc).value.0 < 0x1_0000_0000_0000_0000
              && i < DecodeFrom(s, i, acc).value.1 <= if |s| <= 9 then |s| else 9
    decreases 8 - i
  {
    PowBelow(i);
    if i < |s| && i < 8 {
      var v := acc * 128 + s[i] % 128;
      assert v < Pow128(i + 1);
      PowBelow(i + 1);
      if s[i] >= 128 {
        DecodedBounds(s, i + 1, v);
      }
    }
  }

  lemma PowEight()
    ensures Pow128(8) == NINE_BYTES
  {
    assert Pow128(2) == 0x4000;
    assert Pow128(4) == 0x1000_0000;
    assert Pow128(6) == 0x400_0000_0000;
  }

  lemma PowBelow(i: nat)
    requires i <= 8
    ensures Pow128(i) <= NINE_BYTES
  {
    PowEight();
    PowMonotone(i, 8);
  }

  lemma {:induction false} PowMonotone(i: nat, j: nat)
    requires i <= j
    ensures Pow128(i) <= Pow128(j)
  {
    if i < j {
      PowMonotone(i, j - 1);
    }
  }

  // Decoding on values: Ok((value, bytes read)).
  function Decoded(s: seq<byte>): (r: Result<(u64, nat)>)
    ensures r.Ok? ==> 1 <= r.value.1 <= 9 && r.value.1 <= |s|
  {
    DecodedBounds(s, 0, 0);
    match DecodeFrom(s, 0, 0)
    case None => Err(Corrupted)
    case Some((v, n)) => Ok((v, n))
  }

  lemma {:induction false} DigitsBound(v: nat, n: nat)
    requires n >= 1 && v < Pow128(n)
    ensures Digits(v) <= n
  {
    if v >= 128 {
      DigitsBound(v / 128, n - 1);
    }
  }

  lemma {:induction false} DigitsEnough(v: nat)
    ensures v < Pow128(Digits(v))
  {
    if v >= 128 {
      DigitsEnough(v / 128);
    }
  }

  lemma {:induction false} DecodeContinued(s: seq<byte>, v: nat, n: nat)
    requires n <= 8 && v < Pow128(n)
    requires n <= |s| && s[..n] == Continued(v, n)
    ensures DecodeFrom(s, 0, 0) == DecodeFrom(s, n, v)
  {
    if n > 0 {
      assert s[..n - 1] == s[..n][..n - 1] == Continued(v / 128, n - 1);
      DecodeContinued(s, v / 128, n - 1);
      assert s[n - 1] == s[..n][n - 1] == 128 + v % 128;
    }
  }

  // Every u64 survives encoding, whatever bytes follow it.
  lemma RoundTrip(v: u64, rest: seq<byte>)
    ensures Decoded(Encoding(v) + rest) == Ok((v, |Encoding(v)|))
  {
    hide Continued;
    var s := Encoding(v) + rest;
    var n := |Encoding(v)| - 1;
    var front := if v < NINE_BYTES then v / 128 else v / 0x100;
    assert front < Pow128(n) by {
      if v < NINE_BYTES { DigitsEnough(v); } else { PowEight(); }
    }
    assert s[..n] == Continued(front, n);
    DecodeContinued(s, front, n);
    assert s[n] == Encoding(v)[n];
    assert n == 8 ==> v >= NINE_BYTES by {
      if v < NINE_BYTES { PowEight(); DigitsBound(v, 8); }
    }
  }

  // The decoder meets the encoding at any position of a longer buffer.
  lemma DecodedAt(b: seq<byte>, at: nat, v: u64)
    requires at + |Encoding(v)| <= |b|
    requires b[at..at + |Encoding(v)|] == Encoding(v)
    ensures Decoded(b[at..]) == Ok((v, |Encoding(v)|))
  {
    var n := |Encoding(v)|;
    assert b[at..] == Encoding(v) + b[at + n..];
    RoundTrip(v, b[at + n..]);
  }

  // A larger value never takes fewer bytes.
  lemma LengthMonotone(u: u64, v: u64)
    requires u <= v
    ensures |Encoding(u)| <= |Encoding(v)|
  {
    DigitsMonotone(u, v);
  }

  lemma {:induction false} DigitsMonotone(u: nat, v: nat)
    requires u <= v
    ensures Digits(u) <= Digits(v)
  {
    if u >= 128 {
      DigitsMonotone(u / 128, v / 128);
    }
  }

  // Lengths used by the capacity arguments.
  lemma ShortLength(v: u64)
    ensures v < 0x4000 ==> |Encoding(v)| <= 2
  {
    if v < 0x4000 {
      assert Digits(v / 128) == 1;
    }
  }

  // v shifted right by n base-128 digits.
  function Shifted(v: nat, n: nat): nat {
    if n == 0 then v else Shifted(v / 128, n - 1)
  }

  lemma {:induction false} ShiftedStep(v: nat, n: nat)
    ensures Shifted(v, n + 1) == Shifted(v, n) / 128
  {
    if n > 0 {
      ShiftedStep(v / 128, n - 1);
    }
  }

  lemma {:induction false} ContinuedAt(v: nat, n: nat, i: nat)
    requires i < n
    ensures Continued(v, n)[i] == 128 + Shifted(v, n - 1 - i) % 128
  {
    if i < n - 1 {
      ContinuedAt(v / 128, n - 1, i);
    }
  }

  // Write the encoding of v at the front of buf; returns its length.
  method EncodeVarint(v: u64, buf: array<byte>) returns (n: nat)
    requires |Encoding(v)| <= buf.Length
    modifies buf
    ensures n == |Encoding(v)|
    ensures buf[..n] == Encoding(v)
    ensures buf[n..] == old(buf[n..])
  {
    if v <= 0x7F {
      buf[0] := v;
      n := 1;
    } else if v > 0x00FF_FFFF_FFFF_FFFF {
      n := EncodeNine(v, buf);
    } else {
      n := EncodeShort(v, buf);
    }
  }

  // The branch for values that need all nine bytes.
  method EncodeNine(v: u64, buf: array<byte>) returns (n: nat)
    requires v >= NINE_BYTES && buf.Length >= 9
    modifies buf
    ensures n == 9 && buf[..n] == Encoding(v)
    ensures buf[n..] == old(buf[n..])
  {
    buf[8] := v % 0x100;
    var value: u64 := v / 0x100;
    for i := 8 downto 0
      invariant Continued(value, i) + buf[i..9] == Encoding(v)
      invariant buf[9..] == old(buf[9..])
    {
      var digit := value % 128;
      buf[i] := digit + 128;
      assert Continued(value, i + 1) == Continued(value / 128, i) + [digit + 128];
      assert buf[i..9] == [digit + 128] + buf[i + 1..9];
      value := value / 128;
    }
    n := 9;
  }

  // The branch for two to eight bytes: digits into a scratch array, then reversed.
  method EncodeShort(v: u64, buf: array<byte>) returns (n: nat)
    requires 128 <= v < NINE_BYTES && |Encoding(v)| <= buf.Length
    modifies buf
    ensures n == |Encoding(v)| && buf[..n] == Encoding(v)
    ensures buf[n..] == old(buf[n..])
  {
    var temp := new byte[10](_ => 0);
    var value: u64 := v;
    n := 0;
    DigitsBound(v, 8) by { PowEight(); }
    while value > 0
      invariant 0 <= n <= Digits(v)
      invariant value == Shifted(v, n)
      invariant if value > 0 then n + Digits(value) == Digits(v) else n == Digits(v)
      invariant forall j :: 0 <= j < n ==> temp[j] == Shifted(v, j) % 128
      invariant buf[..] == old(buf[..])
      decreases value
    {
      temp[n] := value % 128;
      ShiftedStep(v, n);
      value := value / 128;
      n := n + 1;
    }
    for i := 0 to n
      invariant buf[..i] == Encoding(v)[..i]
      invariant buf[n..] == old(buf[n..])
      invariant forall j :: 0 <= j < n ==> temp[j] == Shifted(v, j) % 128
    {
      var digit := temp[n - 1 - i];
      if i + 1 < n {
        ContinuedAt(v / 128, n - 1, i);
      }
      buf[i] := if i + 1 < n then digit + 128 else digit;
      assert buf[..i + 1] == buf[..i] + [Encoding(v)[i]];
    }
  }

  // Read one varint from the front of s; returns the value and the bytes consumed.
  method DecodeVarint(s: seq<byte>) returns (r: Result<(u64, nat)>)
    ensures r == Decoded(s)
  {
    if s == [] {
      return Err(Corrupted);
    }
    var value: u64 := 0;
    var i := 0;
    while i < |s| && i < 9
      invariant 0 <= i <= 8 && i <= |s|
      invariant value < Pow128(i)
      invariant DecodeFrom(s, 0, 0) == DecodeFrom(s, i, value)
    {
      PowBelow(i);
      PowEight();
      if i == 8 {
        return Ok((value * 0x100 + s[8], 9));
      }
      PowBelow(i + 1);
      value := value * 128 + s[i] % 128;
      if s[i] < 128 {
        return Ok((value, i + 1));
      }
      i := i + 1;
    }
    return Err(Corrupted);
  }
}
