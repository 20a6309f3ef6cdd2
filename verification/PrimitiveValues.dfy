/** Primitive values as they are written, one or many, and read back (wire_format_lite_inl.h). */
module PrimitiveValues {
  import opened Bytes
  import opened Varint
  import opened WireFormat
  import opened CodedStream
  import opened BulkRead

  /** The values of each declared type; a bool is 0 or 1. */
  predicate InRange(kind: Primitive, value: int) {
    match kind
    case UInt32 => 0 <= value < TWO_32
    case Int32 => -TWO_31 <= value < TWO_31
    case SInt32 => -TWO_31 <= value < TWO_31
    case Bool => value == 0 || value == 1
    case UInt64 => 0 <= value < TWO_64
    case Int64 => -TWO_63 <= value < TWO_63
    case SInt64 => -TWO_63 <= value < TWO_63
    case FixedWord(width) => 0 <= value < Pow256(width)
    case SignedWord(width) => width > 0 && 2 * value + Pow256(width) >= 0 && 2 * value < Pow256(width)
  }

  /** The Write...NoTagToArray functions: negative numbers are sign-extended to 64 bits, or to the width of the word. */
  function Written(kind: Primitive, value: int): Bytes
    requires InRange(kind, value)
  {
    match kind
    case UInt32 => EncodeVarint(value)
    case UInt64 => EncodeVarint(value)
    case Int32 => EncodeVarint(value % TWO_64)
    case Int64 => EncodeVarint(value % TWO_64)
    case SInt32 => EncodeVarint(ZigZagEncode(32, value))
    case SInt64 => EncodeVarint(ZigZagEncode(64, value))
    case Bool => EncodeVarint(value)
    case FixedWord(width) => EncodeLE(value, width)
    case SignedWord(width) => EncodeLE(value % Pow256(width), width)
  }

  lemma {:induction false} Pow256IsPow2(k: nat)
    ensures Pow256(k) == Pow2(8 * k)
  {
    if k > 0 {
      Pow256IsPow2(k - 1);
      Pow2Add(8, 8 * (k - 1));
      assert Pow2(8) == 256 by { assert Pow2(4) == 16; Pow2Add(4, 4); }
    }
  }

  /** Two's complement: half of the words stand for the negative numbers. */
  lemma SignedOfMod(half: int, value: int)
    requires half > 0 && -half <= value < half
    ensures var u := value % (2 * half); (if u < half then u else u - 2 * half) == value
  {
    if value < 0 {
      ModOfNegative(value, 2 * half);
    } else {
      ModOfSmall(value, 2 * half);
    }
  }

  lemma WordReads(v: nat, width: nat, rest: Bytes)
    requires v < Pow256(width)
    ensures NextFixed(EncodeLE(v, width) + rest, width) == Some((v, width))
  {
    assert (EncodeLE(v, width) + rest)[..width] == EncodeLE(v, width);
    DecodeEncodeLE(v, width);
  }

  lemma SignedWordReads(value: int, width: nat)
    requires InRange(SignedWord(width), value)
    ensures Signed(8 * width, value % Pow256(width)) == value
  {
    Pow256IsPow2(width);
    SignedOfMod(Pow2(8 * width - 1), value);
  }

  lemma SignExtendedReads(kind: Primitive, value: int, rest: Bytes)
    requires (kind.Int32? || kind.Int64?) && InRange(kind, value)
    ensures NextPrimitive(Written(kind, value) + rest, kind) == Element(value, |Written(kind, value)|)
  {
    hide EncodeVarint, Pow2;
    Pow2Values();
    Varint64RoundTrip(value % TWO_64, rest);
    if value < 0 {
      ModOfNegative(value, TWO_64);
    } else {
      ModOfSmall(value, TWO_64);
    }
    if kind.Int32? {
      SignExtendTruncates(value);
    } else {
      SignedOfMod(TWO_63, value);
    }
  }

  lemma VarintReads(kind: Primitive, value: int, rest: Bytes)
    requires (kind.UInt32? || kind.UInt64? || kind.Bool? || kind.SInt32? || kind.SInt64?) && InRange(kind, value)
    ensures NextPrimitive(Written(kind, value) + rest, kind) == Element(value, |Written(kind, value)|)
  {
    hide EncodeVarint, ZigZagEncode, ZigZagDecode;
    if kind.SInt32? {
      SInt32RoundTrip(value, rest);
    } else if kind.SInt64? {
      SInt64RoundTrip(value, rest);
    } else if kind.UInt64? {
      Varint64RoundTrip(value, rest);
    } else {
      Varint32RoundTrip(value, rest);
    }
  }

  /** Every value of every declared type comes back as it was written, whatever follows it. */
  lemma PrimitiveReads(kind: Primitive, value: int, rest: Bytes)
    requires InRange(kind, value)
    ensures NextPrimitive(Written(kind, value) + rest, kind) == Element(value, |Written(kind, value)|)
  {
    hide EncodeVarint, EncodeLE, ZigZagEncode, ReadVarint32, ReadVarint64, NextFixed;
    match kind
    case FixedWord(width) => WordReads(value, width, rest);
    case SignedWord(width) => WordReads(value % Pow256(width), width, rest); SignedWordReads(value, width);
    case Int32 => SignExtendedReads(kind, value, rest);
    case Int64 => SignExtendedReads(kind, value, rest);
    case _ => VarintReads(kind, value, rest);
  }

  /** A bool is read as true exactly when the varint, over-long or not, is other than zero, and not at all only when there is no varint. */
  lemma BoolIsNonZero(s: Bytes)
    ensures match ReadVarint32(s)
            case None => NextPrimitive(s, Bool) == NoElement
            case Some((word, n)) => NextPrimitive(s, Bool) == Element(One(word != 0), n)
  {
  }

  // ---- Repeated fields ------------------------------------------------------------------------------

  predicate AllInRange(kind: Primitive, values: seq<int>) { forall i | 0 <= i < |values| :: InRange(kind, values[i]) }

  /** Each value with the tag in front of it */
  function WrittenAll(tag: uint32, kind: Primitive, values: seq<int>): Bytes
    requires AllInRange(kind, values)
  {
    if values == [] then [] else EncodeVarint(tag) + Written(kind, values[0]) + WrittenAll(tag, kind, values[1..])
  }

  lemma OneRoundReads(tag: uint32, kind: Primitive, value: int, rest: Bytes)
    requires tag < TWO_14 && InRange(kind, value)
    ensures Round(EncodeVarint(tag) + Written(kind, value) + rest, tag, kind) == Element(value, |EncodeVarint(tag) + Written(kind, value)|)
  {
    hide Written, EncodeVarint, ExpectTag, NextPrimitive;
    var head, word := EncodeVarint(tag), Written(kind, value);
    var s := head + word + rest;
    Regroup(head, word, rest);
    ExpectTagIffCanonical(s, tag);
    assert s[|head|..] == word + rest;
    PrimitiveReads(kind, value, rest);
  }

  /** A repeated field that was written is read back, value by value and byte by byte, whatever follows it. */
  lemma {:induction false} RepeatedReads(tag: uint32, kind: Primitive, values: seq<int>, rest: Bytes)
    requires tag < TWO_14 && AllInRange(kind, values)
    ensures var s := WrittenAll(tag, kind, values);
            PlainRead(s + rest, tag, kind, |values|) == Elements(values, |s|)
    decreases values
  {
    hide Round, EncodeVarint, Written, InRange, PlainRead;
    var s := WrittenAll(tag, kind, values);
    PlainReadUnfolds(s + rest, tag, kind, |values|);
    if values != [] {
      var one, more := EncodeVarint(tag) + Written(kind, values[0]), WrittenAll(tag, kind, values[1..]);
      assert s == one + more;
      hide WrittenAll;
      Regroup(one, more, rest);
      OneRoundReads(tag, kind, values[0], more + rest);
      RepeatedReads(tag, kind, values[1..], rest);
      assert (s + rest)[|one|..] == more + rest;
    }
  }
}
