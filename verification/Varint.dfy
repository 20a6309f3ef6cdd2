/** The base-128 varint encoding (coded_stream.h) and the fast paths built on it. */
module Varint {
  import opened Bytes

  const MAX_VARINT_BYTES := 10

  function Pow128(k: nat): (p: nat)
    ensures p >= 1
  {
    if k == 0 then 1 else 128 * Pow128(k - 1)
  }

  /** Seven bits a byte, least significant group first; the top bit says that more bytes follow. */
  function EncodeVarint(v: nat): (s: Bytes)
    ensures |s| >= 1
  {
    if v < 128 then [v] else [v % 128 + 128] + EncodeVarint(v / 128)
  }

  /** The number at the front of s and the bytes it takes, or None when no varint of at most k bytes is there. */
  function DecodeVarint(s: Bytes, k: nat): (r: Option<(nat, nat)>)
    ensures r.Some? ==> 1 <= r.value.1 <= |s| && r.value.1 <= k
    decreases k
  {
    if s == [] || k == 0 then None
    else if s[0] < 128 then Some((s[0], 1))
    else
      match DecodeVarint(s[1..], k - 1)
      case None => None
      case Some((v, n)) => Some((s[0] - 128 + 128 * v, n + 1))
  }

  /** Truncates to 64 bits; fails past ten bytes or past the end of the input. */
  function ReadVarint64(s: Bytes): (r: Option<(uint64, nat)>)
    ensures r.Some? ==> 1 <= r.value.1 <= |s|
  {
    match DecodeVarint(s, MAX_VARINT_BYTES)
    case None => None
    case Some((v, n)) => Some((v % TWO_64, n))
  }

  /** Reading a 32-bit value is reading a 64-bit one and casting it. */
  function ReadVarint32(s: Bytes): (r: Option<(uint32, nat)>)
    ensures r.Some? ==> 1 <= r.value.1 <= |s|
  {
    match ReadVarint64(s)
    case None => None
    case Some((v, n)) => Some((v % TWO_32, n))
  }

  function VarintSize32(value: uint32): nat {
    if value < 0x80 then 1
    else if value < 0x4000 then 2
    else if value < 0x20_0000 then 3
    else if value < 0x1000_0000 then 4
    else 5
  }

  /** A value takes at most k bytes exactly when it is below 128^k. */
  lemma {:induction false} EncodedLength(v: nat, k: nat)
    requires k >= 1
    ensures |EncodeVarint(v)| <= k <==> v < Pow128(k)
    decreases k
  {
    if k == 1 {
      assert Pow128(1) == 128 * Pow128(0) == 128;
    } else if v >= 128 {
      EncodedLength(v / 128, k - 1);
    }
  }

  lemma Pow128Values()
    ensures Pow128(1) == 0x80
    ensures Pow128(2) == 0x4000
    ensures Pow128(3) == 0x20_0000
    ensures Pow128(4) == 0x1000_0000
    ensures Pow128(5) == 8 * TWO_32
    ensures Pow128(9) == TWO_63
    ensures Pow128(10) == 64 * TWO_64
  {
  }

  /** The size that ByteSize adds up is the number of bytes that are written. */
  lemma {:induction false} VarintSizeIsLength(value: uint32)
    ensures |EncodeVarint(value)| == VarintSize32(value)
  {
    Pow128Values();
    EncodedLength(value, 1);
    EncodedLength(value, 2);
    EncodedLength(value, 3);
    EncodedLength(value, 4);
    EncodedLength(value, 5);
  }

  lemma {:induction false} DecodeEncode(v: nat, k: nat, rest: Bytes)
    requires 1 <= k && v < Pow128(k)
    ensures DecodeVarint(EncodeVarint(v) + rest, k) == Some((v, |EncodeVarint(v)|))
    decreases k
  {
    var s := EncodeVarint(v) + rest;
    if v >= 128 {
      assert k > 1 by { assert Pow128(1) == 128 * Pow128(0); }
      DecodeEncode(v / 128, k - 1, rest);
      assert s[1..] == EncodeVarint(v / 128) + rest;
    }
  }

  lemma {:induction false} Varint64RoundTrip(v: uint64, rest: Bytes)
    ensures ReadVarint64(EncodeVarint(v) + rest) == Some((v, |EncodeVarint(v)|))
  {
    Pow128Values();
    DecodeEncode(v, MAX_VARINT_BYTES, rest);
  }

  lemma Varint32RoundTrip(v: uint32, rest: Bytes)
    ensures ReadVarint32(EncodeVarint(v) + rest) == Some((v, |EncodeVarint(v)|))
  {
    Varint64RoundTrip(v, rest);
  }

  /** A varint that was read is the canonical one exactly when it is not over-long. */
  lemma {:induction false} CanonicalIsShortest(s: Bytes, k: nat)
    requires DecodeVarint(s, k).Some?
    ensures var (v, n) := DecodeVarint(s, k).value;
            |EncodeVarint(v)| <= n && (EncodeVarint(v) == s[..n] <==> |EncodeVarint(v)| == n)
    decreases k
  {
    if s[0] >= 128 {
      CanonicalIsShortest(s[1..], k - 1);
      var (v', n') := DecodeVarint(s[1..], k - 1).value;
      var v := s[0] - 128 + 128 * v';
      assert s[..n' + 1] == [s[0]] + s[1..][..n'];
      if v >= 128 {
        assert v / 128 == v' && v % 128 == s[0] - 128;
        assert EncodeVarint(v) == [s[0]] + EncodeVarint(v');
        assert EncodeVarint(v)[1..] == EncodeVarint(v');
        assert s[..n' + 1][1..] == s[1..][..n'];
      }
    }
  }

  /** A varint at the front of an input is not affected by what follows it. */
  lemma {:induction false} DecodeIgnoresSuffix(s: Bytes, k: nat, rest: Bytes)
    requires DecodeVarint(s, k).Some?
    ensures DecodeVarint(s + rest, k) == DecodeVarint(s, k)
    decreases k
  {
    if s[0] >= 128 {
      DecodeIgnoresSuffix(s[1..], k - 1, rest);
      assert (s + rest)[1..] == s[1..] + rest;
    }
  }

  /** The bytes of a varint: all but the last have the top bit set, and it is read if one without it is among the first k. */
  lemma {:induction false} EndsAtFirstLowByte(s: Bytes, k: nat)
    ensures DecodeVarint(s, k).Some? <==> exists i :: 0 <= i < |s| && i < k && s[i] < 128
    ensures DecodeVarint(s, k).Some? ==>
              var n := DecodeVarint(s, k).value.1; s[n - 1] < 128 && forall i | 0 <= i < n - 1 :: s[i] >= 128
    decreases k
  {
    if s != [] && k > 0 && s[0] >= 128 {
      EndsAtFirstLowByte(s[1..], k - 1);
      if i :| 0 <= i < |s| && i < k && s[i] < 128 {
        assert s[1..][i - 1] == s[i];
      }
    }
  }

  /** The low seven bits of the bytes are the value's digits to base 128, the least significant first. */
  lemma {:induction false} GroupsOfSeven(v: nat, i: nat)
    requires i < |EncodeVarint(v)|
    ensures EncodeVarint(v)[i] as int % 128 == v / Pow128(i) % 128 && (EncodeVarint(v)[i] >= 128 <==> i < |EncodeVarint(v)| - 1)
    decreases i
  {
    if i > 0 {
      GroupsOfSeven(v / 128, i - 1);
      DivideTwice(v, Pow128(i - 1));
    }
  }

  lemma DivideTwice(v: nat, p: nat)
    requires p > 0
    ensures v / 128 / p == v / (128 * p)
  {
    var q := v / 128 / p;
    var r := v / 128 - q * p;
    assert v == 128 * (q * p + r) + v % 128;
    assert 128 * (q * p) == q * (128 * p);
    Quotient(v, 128 * p, q, 128 * r + v % 128);
  }

  lemma Quotient(v: nat, d: nat, q: nat, r: nat)
    requires v == q * d + r && r < d
    ensures v / d == q
  {
    var e := v / d - q;
    assert v == (v / d) * d + v % d;
    assert (v / d) * d == q * d + e * d;
    NoSmallMultiple(e, d);
  }

  lemma NoSmallMultiple(e: int, d: int)
    requires d > 0
    ensures e == 0 || e * d >= d || e * d <= -d
  {
    if e > 0 {
      assert (e - 1) * d >= 0;
    } else if e < 0 {
      assert (-e - 1) * d >= 0;
    }
  }

  /** x | 0x80 */
  function OrBit7(x: nat): nat {
    if x / 128 % 2 == 1 then x else x + 128
  }

  /** CodedInputStream::ExpectTag on the unread bytes: how far it advances, or None when it answers false. */
  function ExpectTag(s: Bytes, expected: uint32): Option<nat> {
    if expected < 0x80 then
      if |s| >= 1 && s[0] == expected then Some(1) else None
    else if expected < 0x4000 then
      if |s| >= 2 && s[0] == OrBit7(expected) % 256 && s[1] == expected / 128 % 256 then Some(2) else None
    else None
  }

  /** CodedOutputStream::WriteTagToArray: the bytes it stores. */
  function WriteTag(value: uint32): Bytes {
    if value < 0x80 then [value]
    else if value < 0x4000 then [OrBit7(value) % 256, value / 128 % 256]
    else EncodeVarint(value)
  }

  lemma OrBit7Is(x: nat)
    ensures OrBit7(x) % 256 == x % 128 + 128
  {
  }

  lemma {:induction false} WriteTagIsCanonical(value: uint32)
    ensures WriteTag(value) == EncodeVarint(value)
  {
    if 0x80 <= value < 0x4000 {
      OrBit7Is(value);
      assert EncodeVarint(value / 128) == [value / 128];
    }
  }

  /** ExpectTag accepts exactly the canonical encoding, and only of tags below 2^14. */
  lemma {:induction false} ExpectTagIffCanonical(s: Bytes, expected: uint32)
    ensures ExpectTag(s, expected) ==
            if expected < TWO_14 && EncodeVarint(expected) <= s then Some(|EncodeVarint(expected)|) else None
  {
    WriteTagIsCanonical(expected);
    if expected < TWO_14 {
      var e := WriteTag(expected);
      if e <= s {
        assert forall i | 0 <= i < |e| :: s[i] == e[i];
      }
    }
  }

  /** The uint64 that static_cast makes of a negative int32. */
  function SignExtend(value: int32): uint64 {
    if value < 0 then value + TWO_64 else value
  }

  /** WriteVarint32SignExtendedToArray */
  function WriteInt32(value: int32): Bytes {
    EncodeVarint(SignExtend(value))
  }

  function ToInt32(u: uint32): int32 {
    if u < TWO_31 then u else u - TWO_32
  }

  /** ReadPrimitive<int32, TYPE_INT32> */
  function ReadInt32(s: Bytes): Option<(int32, nat)> {
    match ReadVarint32(s)
    case None => None
    case Some((u, n)) => Some((ToInt32(u), n))
  }

  function VarintSize32SignExtended(value: int32): nat {
    if value < 0 then 10 else VarintSize32(value)
  }

  lemma NegativeTakesTenBytes(value: int32)
    requires value < 0
    ensures |WriteInt32(value)| == 10
  {
    var u := SignExtend(value);
    assert |EncodeVarint(u)| > 9 by {
      assert u >= Pow128(9) by { Pow128Values(); }
      EncodedLength(u, 9);
    }
    assert |EncodeVarint(u)| <= 10 by {
      assert u < Pow128(10) by { Pow128Values(); }
      EncodedLength(u, 10);
    }
  }

  lemma Int32RoundTrip(value: int32, rest: Bytes)
    ensures |WriteInt32(value)| == VarintSize32SignExtended(value)
    ensures ReadInt32(WriteInt32(value) + rest) == Some((value, |WriteInt32(value)|))
  {
    if value < 0 {
      NegativeTakesTenBytes(value);
    } else {
      VarintSizeIsLength(value);
    }
    Varint64RoundTrip(SignExtend(value), rest);
    SignExtendTruncates(value);
  }

  lemma SignExtendTruncates(value: int32)
    ensures ToInt32(SignExtend(value) % TWO_32) == value
  {
  }
}
