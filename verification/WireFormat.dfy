/** Tags, fixed-width words and the ZigZag transform (wire_format_lite.h). */
module WireFormat {
  import opened Bytes
  import opened Varint

  const WIRETYPE_VARINT := 0
  const WIRETYPE_FIXED64 := 1
  const WIRETYPE_LENGTH_DELIMITED := 2
  const WIRETYPE_START_GROUP := 3
  const WIRETYPE_END_GROUP := 4
  const WIRETYPE_FIXED32 := 5

  const MAX_FIELD_NUMBER: int := 0x1FFF_FFFF

  type fieldnum = n: int | 0 <= n <= MAX_FIELD_NUMBER
  type wiretype = n: int | 0 <= n < 8

  /** (field_number << 3) | type: the shift leaves the low three bits clear. */
  function MakeTag(number: fieldnum, wire: wiretype): (tag: uint32)
    ensures GetTagFieldNumber(tag) == number && GetTagWireType(tag) == wire
  {
    number * 8 + wire
  }

  function GetTagWireType(tag: uint32): wiretype { tag % 8 }

  function GetTagFieldNumber(tag: uint32): fieldnum { tag / 8 }

  /** A tag is determined by its field number and wire type. */
  lemma TagParts(tag: uint32)
    ensures MakeTag(GetTagFieldNumber(tag), GetTagWireType(tag)) == tag
  {
  }

  // ---- ZigZag -------------------------------------------------------------------

  function Pow2(w: nat): (p: int)
    ensures p >= 1
  {
    if w == 0 then 1 else 2 * Pow2(w - 1)
  }

  /** Bitwise exclusive or. */
  function Xor(a: nat, b: nat): nat {
    if a == 0 && b == 0 then 0 else (a + b) % 2 + 2 * Xor(a / 2, b / 2)
  }

  lemma {:induction false} XorZero(a: nat)
    ensures Xor(a, 0) == a
  {
    if a > 0 { XorZero(a / 2); }
  }

  lemma {:induction false} XorOnes(a: nat, w: nat)
    requires a < Pow2(w)
    ensures Xor(a, Pow2(w) - 1) == Pow2(w) - 1 - a
  {
    if w > 0 {
      var half := Pow2(w - 1);
      HalveOnes(a, half);
      XorOnes(a / 2, w - 1);
      hide Xor;
      XorStep(a, 2 * half - 1);
    }
  }

  lemma HalveOnes(a: nat, half: nat)
    requires a < 2 * half
    ensures a / 2 < half && (2 * half - 1) / 2 == half - 1 && (a + (2 * half - 1)) % 2 == 1 - a % 2
  {
  }

  lemma XorStep(a: nat, b: nat)
    ensures Xor(a, b) == (a + b) % 2 + 2 * Xor(a / 2, b / 2)
  {
  }

  predicate IsSigned(w: nat, n: int) requires w >= 1 { -Pow2(w - 1) <= n < Pow2(w - 1) }

  /** n as an unsigned w-bit word */
  function Word(w: nat, n: int): (u: nat)
    ensures u < Pow2(w)
  {
    n % Pow2(w)
  }

  /** an unsigned w-bit word as a two's-complement number */
  function Signed(w: nat, u: nat): int
    requires w >= 1
  {
    if u < Pow2(w - 1) then u else u - Pow2(w)
  }

  /** (n << 1) ^ (n >> (w - 1)), the right shift being arithmetic */
  function ZigZagEncode(w: nat, n: int): nat
    requires w >= 1
  {
    Xor(Word(w, n * 2), Word(w, n / Pow2(w - 1)))
  }

  /** (u >> 1) ^ -(u & 1) */
  function ZigZagDecode(w: nat, u: nat): int
    requires w >= 1
  {
    Signed(w, Xor(u / 2, Word(w, -(u % 2))))
  }

  lemma ShiftOfNegative(n: int, d: int)
    requires -d <= n < 0
    ensures n / d == -1
  {
  }

  lemma ShiftOfSmall(n: int, d: int)
    requires 0 <= n < d
    ensures n / d == 0
  {
  }

  lemma ModOfNegative(n: int, d: int)
    requires -d <= n < 0
    ensures n % d == n + d
  {
  }

  lemma ModOfSmall(n: int, d: int)
    requires 0 <= n < d
    ensures n % d == n
  {
  }

  /** The table in the comment: 0, -1, 1, -2, ... go to 0, 1, 2, 3, ... */
  lemma ZigZagEncodeIs(w: nat, n: int)
    requires w >= 1 && IsSigned(w, n)
    ensures ZigZagEncode(w, n) == if n >= 0 then 2 * n else -2 * n - 1
  {
    var half := Pow2(w - 1);
    assert Pow2(w) == 2 * half;
    if n >= 0 {
      ShiftOfSmall(n, half);
      ModOfSmall(0, 2 * half);
      ModOfSmall(2 * n, 2 * half);
      XorZero(2 * n);
    } else {
      ShiftOfNegative(n, half);
      ModOfNegative(-1, 2 * half);
      ModOfNegative(n * 2, 2 * half);
      XorOnes(n * 2 + 2 * half, w);
    }
  }

  lemma ZigZagDecodeIs(w: nat, u: nat)
    requires w >= 1 && u < Pow2(w)
    ensures ZigZagDecode(w, u) == if u % 2 == 0 then u / 2 else -(u / 2) - 1
  {
    var half := Pow2(w - 1);
    assert Pow2(w) == 2 * half;
    if u % 2 == 0 {
      ModOfSmall(0, 2 * half);
      XorZero(u / 2);
    } else {
      ModOfNegative(-1, 2 * half);
      XorOnes(u / 2, w);
    }
  }

  /** For every word width the two transforms undo each other. */
  lemma ZigZagInverse(w: nat, n: int, u: nat)
    requires w >= 1 && IsSigned(w, n) && u < Pow2(w)
    ensures ZigZagEncode(w, n) < Pow2(w) && ZigZagDecode(w, ZigZagEncode(w, n)) == n
    ensures IsSigned(w, ZigZagDecode(w, u)) && ZigZagEncode(w, ZigZagDecode(w, u)) == u
  {
    hide ZigZagEncode, ZigZagDecode;
    var half := Pow2(w - 1);
    assert Pow2(w) == 2 * half;
    hide Pow2;
    ZigZagEncodeIs(w, n);
    ZigZagDecodeIs(w, ZigZagEncode(w, n));
    ZigZagDecodeIs(w, u);
    ZigZagEncodeIs(w, ZigZagDecode(w, u));
  }

  lemma Pow2Values()
    ensures Pow2(31) == TWO_31 && Pow2(32) == TWO_32
    ensures Pow2(63) == TWO_63 && Pow2(64) == TWO_64
  {
    assert Pow2(4) == 16;
    hide Pow2;
    Pow2Doubled(4, 0x10);
    Pow2Doubled(8, 0x100);
    Pow2Doubled(16, 0x1_0000);
    Pow2Doubled(32, TWO_32);
  }

  lemma Pow2Doubled(w: nat, p: nat)
    requires w > 0 && Pow2(w) == p
    ensures Pow2(2 * w) == p * p && 2 * Pow2(2 * w - 1) == p * p
  {
    Pow2Add(w, w);
  }

  lemma {:induction false} Pow2Add(a: nat, b: nat)
    ensures Pow2(a + b) == Pow2(a) * Pow2(b)
  {
    if a > 0 {
      Pow2Add(a - 1, b);
      assert 2 * (Pow2(a - 1) * Pow2(b)) == (2 * Pow2(a - 1)) * Pow2(b);
    }
  }

  /** WriteSInt32NoTagToArray followed by ReadPrimitive<int32, TYPE_SINT32> */
  lemma SInt32RoundTrip(value: int32, rest: Bytes)
    ensures var u := ZigZagEncode(32, value);
            u < TWO_32 &&
            ReadVarint32(EncodeVarint(u) + rest) == Some((u, |EncodeVarint(u)|)) &&
            ZigZagDecode(32, u) == value
  {
    Pow2Values();
    ZigZagInverse(32, value, 0);
    Varint32RoundTrip(ZigZagEncode(32, value), rest);
  }

  /** WriteSInt64NoTagToArray followed by ReadPrimitive<int64, TYPE_SINT64> */
  lemma SInt64RoundTrip(value: int, rest: Bytes)
    requires -TWO_63 <= value < TWO_63
    ensures var u := ZigZagEncode(64, value);
            u < TWO_64 &&
            ReadVarint64(EncodeVarint(u) + rest) == Some((u, |EncodeVarint(u)|)) &&
            ZigZagDecode(64, u) == value
  {
    Pow2Values();
    ZigZagInverse(64, value, 0);
    Varint64RoundTrip(ZigZagEncode(64, value), rest);
  }
}
