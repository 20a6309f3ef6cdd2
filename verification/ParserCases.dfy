/** What the plain parser does with single fields on the wire, byte by byte: what is read, kept, refused or ends the parse. */
module ParserCases {
  import opened Bytes
  import opened Varint
  import opened WireFormat
  import opened CodedStream
  import opened UnknownFields
  import opened Messages

  // ---- Unknown fields ----------------------------------------------------------------------------

  /** The tag is the number shifted by three bits and the wire type: 0 varint, 1 and 5 fixed words, 2 bytes, 3 and 4 a group. */
  lemma UnknownLayout(n: fieldnum, word: uint64, half: uint32, text: Bytes, fields: seq<UnknownField>)
    ensures SerializeField(VarintField(n, word)) == EncodeVarint(8 * n) + EncodeVarint(word)
    ensures SerializeField(Fixed64Field(n, word)) == EncodeVarint(8 * n + 1) + EncodeLE(word, 8)
    ensures SerializeField(LengthDelimitedField(n, text)) == EncodeVarint(8 * n + 2) + (EncodeVarint(|text|) + text)
    ensures SerializeField(GroupField(n, fields)) == EncodeVarint(8 * n + 3) + (SerializeFields(fields) + EncodeVarint(8 * n + 4))
    ensures SerializeField(Fixed32Field(n, half)) == EncodeVarint(8 * n + 5) + EncodeLE(half, 4)
  {
    hide EncodeVarint, EncodeLE, SerializeFields;
  }

  /** A string's length is an int: one of 2^31 or more is refused, and so is one that is not all there. */
  lemma StringIsRefused(len: uint32, rest: Bytes)
    requires len >= TWO_31 || len > |rest|
    ensures NextString(EncodeVarint(len) + rest) == None
  {
    hide EncodeVarint;
    Varint32RoundTrip(len, rest);
  }

  /** Wire types 4, 6 and 7 hold no value, and a word needs all its bytes. */
  lemma SkipFieldRefuses(s: Bytes, n: fieldnum, depth: nat)
    ensures SkipField(s, MakeTag(n, 4), depth) == SkipField(s, MakeTag(n, 6), depth) == SkipField(s, MakeTag(n, 7), depth) == NoField
    ensures |s| < 8 ==> SkipField(s, MakeTag(n, 1), depth) == NoField
    ensures |s| < 4 ==> SkipField(s, MakeTag(n, 5), depth) == NoField
    ensures ReadVarint64(s) == None ==> SkipField(s, MakeTag(n, 0), depth) == NoField
    ensures NextString(s) == None ==> SkipField(s, MakeTag(n, 2), depth) == NoField
  {
    hide ReadVarint64, NextString;
  }

  /** A group has to end with the end tag of its own number. */
  lemma GroupEndsWithItsNumber(fields: seq<UnknownField>, n: fieldnum, other: fieldnum, depth: nat, rest: Bytes)
    requires depth > 0 && WellFormedFields(fields, depth - 1) && other != n
    ensures SkipField(SerializeFields(fields) + (EncodeVarint(8 * other + 4) + rest), MakeTag(n, WIRETYPE_START_GROUP), depth) == NoField
  {
    hide SerializeFields, EncodeVarint, SkipMessage;
    var end := MakeTag(other, WIRETYPE_END_GROUP);
    SkipMessageReads(fields, end, depth - 1, rest);
  }

  /** k groups, each the only field of the one around it */
  function Nested(n: fieldnum, k: nat): UnknownField
    decreases k
  {
    GroupField(n, if k == 0 then [] else [Nested(n, k - 1)])
  }

  lemma {:induction false} NestedIsWellFormed(n: fieldnum, k: nat, depth: nat)
    ensures WellFormedField(Nested(n, k), depth) <==> k < depth
    decreases k
  {
    if k > 0 && depth > 0 {
      var inner := Nested(n, k - 1);
      NestedIsWellFormed(n, k - 1, depth - 1);
      assert [inner][1..] == [];
      assert WellFormedFields([inner], depth - 1) <==> WellFormedField(inner, depth - 1);
    }
  }

  /** Groups are read if and only if they nest no deeper than the limit. */
  lemma {:induction false} NestingIsLimited(n: fieldnum, k: nat, depth: nat, rest: Bytes)
    ensures SkipField(Payload(Nested(n, k)) + rest, MakeTag(n, WIRETYPE_START_GROUP), depth).FieldRead? <==> k < depth
    decreases k
  {
    hide EncodeVarint, SkipMessage;
    NestedIsWellFormed(n, k, depth);
    if k < depth {
      hide Payload, SkipField;
      SkipFieldReads(Nested(n, k), depth, rest);
    } else if depth > 0 {
      NestingIsLimited(n, k - 1, depth - 1, EncodeVarint(8 * n + 4) + rest);
      InnerIsRefused(n, Payload(Nested(n, k - 1)), EncodeVarint(8 * n + 4) + rest, depth - 1);
      assert Payload(Nested(n, k)) + rest ==
             EncodeVarint(MakeTag(n, WIRETYPE_START_GROUP)) + (Payload(Nested(n, k - 1)) + (EncodeVarint(8 * n + 4) + rest)) by {
        hide Payload;
        PayloadOfNested(n, k);
        Regroup(EncodeVarint(MakeTag(n, WIRETYPE_START_GROUP)), Payload(Nested(n, k - 1)), EncodeVarint(8 * n + 4));
        Regroup(EncodeVarint(MakeTag(n, WIRETYPE_START_GROUP)), Payload(Nested(n, k - 1)) + EncodeVarint(8 * n + 4), rest);
        Regroup(Payload(Nested(n, k - 1)), EncodeVarint(8 * n + 4), rest);
      }
    }
  }

  lemma PayloadOfNested(n: fieldnum, k: nat)
    requires k > 0
    ensures Payload(Nested(n, k)) == EncodeVarint(MakeTag(n, WIRETYPE_START_GROUP)) + Payload(Nested(n, k - 1)) + EncodeVarint(8 * n + 4)
  {
    hide EncodeVarint;
    var inner := Nested(n, k - 1);
    assert SerializeFields([inner]) == SerializeField(inner) + SerializeFields([]);
    assert [inner][1..] == [];
  }

  lemma InnerIsRefused(n: fieldnum, inner: Bytes, rest: Bytes, depth: nat)
    requires SkipField(inner + rest, MakeTag(n, WIRETYPE_START_GROUP), depth) == NoField
    ensures SkipMessage(EncodeVarint(MakeTag(n, WIRETYPE_START_GROUP)) + (inner + rest), depth) == NoFields
  {
    hide EncodeVarint, SkipField, NextTag;
    var tag := MakeTag(n, WIRETYPE_START_GROUP);
    NextTagReads(tag, inner + rest);
    DropPrefix(EncodeVarint(tag), inner + rest);
  }

  // ---- One field of a message -----------------------------------------------------------------------

  /** Where a tag is next the parser does what MergeField does with what stands behind it. */
  lemma BehindTag(schema: Schema, tag: uint32, s: Bytes, m: Message)
    requires tag != 0
    ensures var n := |EncodeVarint(tag)|;
            Merge(schema, EncodeVarint(tag) + s, m) ==
            match MergeField(schema, s, tag, m)
            case Done(ok, m') => Outcome(ok, m', n, tag, false)
            case Next(m', k) => Merge(schema, s[k..], m').After(n + k)
  {
    hide EncodeVarint, NextTag, MergeField, Merge;
    NextTagReads(tag, s);
    MergeUnfolds(schema, EncodeVarint(tag) + s, m);
    DropPrefix(EncodeVarint(tag), s);
  }

  /** A parse ends well, but not at the end of the input, at an end-group tag, at a zero tag, and where no tag can be read. */
  lemma ParseStops(schema: Schema, n: fieldnum, s: Bytes, m: Message)
    ensures Merge(schema, EncodeVarint(8 * n + 4) + s, m) == Outcome(true, m, |EncodeVarint(8 * n + 4)|, 8 * n + 4, false)
    ensures Merge(schema, [0] + s, m) == Outcome(true, m, 1, 0, false)
    ensures s != [] && ReadVarint32(s) == None ==> Merge(schema, s, m) == Outcome(true, m, 0, 0, false)
  {
    hide EncodeVarint, Merge, ReadVarint32;
    BehindTag(schema, MakeTag(n, WIRETYPE_END_GROUP), s, m);
    MergeUnfolds(schema, [0] + s, m);
    ZeroTag(s);
    MergeUnfolds(schema, s, m);
  }

  lemma ZeroTag(s: Bytes)
    ensures NextTag([0] + s) == TagRead(0, 1, false)
  {
  }

  /** A string that is not all there fails the parse, and yet the field is set: to what it was, or to the empty string. */
  lemma BrokenStringIsSet(schema: Schema, n: fieldnum, s: Bytes, m: Message)
    requires n in schema && schema[n] == StringKind && NextString(s) == None
    ensures var r := Merge(schema, EncodeVarint(8 * n + 2) + s, m);
            && !r.ok && r.lastTag == 8 * n + 2 && r.msg.unknown == m.unknown
            && r.msg.known == if n in m.known then m.known else m.known[n := Text([])]
  {
    hide EncodeVarint, Merge, NextString;
    BehindTag(schema, MakeTag(n, WIRETYPE_LENGTH_DELIMITED), s, m);
  }

  /** A bool that is not all there leaves the field as it was. */
  lemma BrokenBoolIsNotSet(schema: Schema, n: fieldnum, s: Bytes, m: Message)
    requires n in schema && schema[n] == BoolKind && n != 0 && ReadVarint32(s) == None
    ensures Merge(schema, EncodeVarint(8 * n) + s, m) == Outcome(false, m, |EncodeVarint(8 * n)|, 8 * n, false)
  {
    hide EncodeVarint, Merge, ReadVarint32;
    BehindTag(schema, MakeTag(n, WIRETYPE_VARINT), s, m);
  }

  /** A bool is set to true exactly when its varint is not zero. */
  lemma BoolIsSet(schema: Schema, n: fieldnum, v: uint32, s: Bytes, m: Message)
    requires n in schema && schema[n] == BoolKind && n != 0
    ensures Merge(schema, EncodeVarint(8 * n) + (EncodeVarint(v) + s), m) ==
            Merge(schema, s, m.(known := m.known[n := Flag(v != 0)])).After(|EncodeVarint(8 * n)| + |EncodeVarint(v)|)
  {
    hide EncodeVarint, Merge, ReadVarint32;
    Varint32RoundTrip(v, s);
    BehindTag(schema, MakeTag(n, WIRETYPE_VARINT), EncodeVarint(v) + s, m);
    DropPrefix(EncodeVarint(v), s);
  }

  /** A string field that comes as a varint, or a bool that comes as bytes, is kept as an unknown field and sets nothing. */
  lemma WrongWireTypeIsUnknown(schema: Schema, n: fieldnum, v: uint64, text: Bytes, s: Bytes, m: Message)
    requires n in schema && n != 0 && |text| < TWO_31
    ensures schema[n] == StringKind ==>
              Merge(schema, SerializeField(VarintField(n, v)) + s, m) ==
              Merge(schema, s, m.(unknown := m.unknown + [VarintField(n, v)])).After(|SerializeField(VarintField(n, v))|)
    ensures schema[n] == BoolKind ==>
              Merge(schema, SerializeField(LengthDelimitedField(n, text)) + s, m) ==
              Merge(schema, s, m.(unknown := m.unknown + [LengthDelimitedField(n, text)])).After(|SerializeField(LengthDelimitedField(n, text))|)
  {
    hide Merge, SerializeField;
    if schema[n] == StringKind {
      UnknownFieldReads(schema, VarintField(n, v), m, s);
    } else {
      UnknownFieldReads(schema, LengthDelimitedField(n, text), m, s);
    }
  }
}
