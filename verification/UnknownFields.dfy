/** Fields that the message type does not define: skipping, keeping and writing them (wire_format.h, unknown_field_set.h). */
module UnknownFields {
  import opened Bytes
  import opened Varint
  import opened WireFormat
  import opened CodedStream

  /** default_recursion_limit_: how deep groups may nest */
  const RECURSION_LIMIT := 100

  datatype UnknownField =
    | VarintField(number: fieldnum, varint: uint64)
    | Fixed64Field(number: fieldnum, fixed64: uint64)
    | LengthDelimitedField(number: fieldnum, text: Bytes)
    | GroupField(number: fieldnum, fields: seq<UnknownField>)
    | Fixed32Field(number: fieldnum, fixed32: uint32)
  {
    function Wire(): wiretype {
      match this
      case VarintField(_, _) => WIRETYPE_VARINT
      case Fixed64Field(_, _) => WIRETYPE_FIXED64
      case LengthDelimitedField(_, _) => WIRETYPE_LENGTH_DELIMITED
      case GroupField(_, _) => WIRETYPE_START_GROUP
      case Fixed32Field(_, _) => WIRETYPE_FIXED32
    }
  }

  /** A field and the bytes of its value, or none */
  datatype FieldRead = NoField | FieldRead(field: UnknownField, size: nat)

  /** Fields, the tag that ended them and the bytes taken up, or none */
  datatype FieldsRead = NoFields | FieldsRead(fields: seq<UnknownField>, end: uint32, size: nat)

  /** The value of a field that is not a group */
  function SkipScalar(s: Bytes, number: fieldnum, wire: wiretype): (r: FieldRead)
    ensures r.FieldRead? ==> 1 <= r.size <= |s| && r.field.number == number && r.field.Wire() == wire
  {
    if wire == WIRETYPE_VARINT then
      match ReadVarint64(s)
      case None => NoField
      case Some((v, n)) => FieldRead(VarintField(number, v), n)
    else if wire == WIRETYPE_FIXED64 then
      if |s| < 8 then NoField else Pow256Values(); FieldRead(Fixed64Field(number, DecodeLE(s[..8])), 8)
    else if wire == WIRETYPE_LENGTH_DELIMITED then
      match NextString(s)
      case None => NoField
      case Some((text, n)) => FieldRead(LengthDelimitedField(number, text), n)
    else if wire == WIRETYPE_FIXED32 then
      if |s| < 4 then NoField else Pow256Values(); FieldRead(Fixed32Field(number, DecodeLE(s[..4])), 4)
    else NoField
  }

  /** Reads the value that follows the given tag; depth is how many more groups may be opened. */
  function SkipField(s: Bytes, tag: uint32, depth: nat): (r: FieldRead)
    ensures r.FieldRead? ==> 1 <= r.size <= |s|
    ensures r.FieldRead? ==> r.field.number == GetTagFieldNumber(tag) && r.field.Wire() == GetTagWireType(tag)
    decreases |s|, 1
  {
    var number, wire := GetTagFieldNumber(tag), GetTagWireType(tag);
    if wire != WIRETYPE_START_GROUP then SkipScalar(s, number, wire)
    else if depth == 0 then NoField
    else
      var r := SkipMessage(s, depth - 1);
      if r.FieldsRead? && r.end == MakeTag(number, WIRETYPE_END_GROUP) then FieldRead(GroupField(number, r.fields), r.size)
      else NoField
  }

  /** Reads fields up to an end-group tag or a zero tag. */
  function SkipMessage(s: Bytes, depth: nat): (r: FieldsRead)
    ensures r.FieldsRead? ==> r.size <= |s| && (r.end != 0 ==> r.size >= 1)
    decreases |s|, 0
  {
    var t := NextTag(s);
    if t.tag == 0 || GetTagWireType(t.tag) == WIRETYPE_END_GROUP then FieldsRead([], t.tag, t.size)
    else
      var f := SkipField(s[t.size..], t.tag, depth);
      if f.NoField? then NoFields
      else
        var r := SkipMessage(s[t.size..][f.size..], depth);
        if r.NoFields? then NoFields else FieldsRead([f.field] + r.fields, r.end, t.size + f.size + r.size)
  }

  // ---- What follows a field does not change how it is read ---------------------------

  lemma NextTagIgnoresSuffix(s: Bytes, rest: Bytes)
    requires NextTag(s).tag != 0
    ensures NextTag(s + rest) == NextTag(s)
  {
    DecodeIgnoresSuffix(s, MAX_VARINT_BYTES, rest);
  }

  lemma SliceOfPrefix(s: Bytes, from: nat, to: nat, rest: Bytes)
    requires from <= to <= |s|
    ensures (s + rest)[from..to] == s[from..to]
  {
  }

  lemma ReadVarint32IgnoresSuffix(s: Bytes, rest: Bytes)
    requires ReadVarint32(s).Some?
    ensures ReadVarint32(s + rest) == ReadVarint32(s)
  {
    hide DecodeVarint;
    DecodeIgnoresSuffix(s, MAX_VARINT_BYTES, rest);
  }

  lemma NextStringIgnoresSuffix(s: Bytes, rest: Bytes)
    requires NextString(s).Some?
    ensures NextString(s + rest) == NextString(s)
  {
    hide ReadVarint32;
    ReadVarint32IgnoresSuffix(s, rest);
    var (len, n) := ReadVarint32(s).value;
    SliceOfPrefix(s, n, n + len, rest);
  }

  lemma SkipScalarIgnoresSuffix(s: Bytes, number: fieldnum, wire: wiretype, rest: Bytes)
    requires SkipScalar(s, number, wire).FieldRead?
    ensures SkipScalar(s + rest, number, wire) == SkipScalar(s, number, wire)
  {
    if wire == WIRETYPE_VARINT {
      DecodeIgnoresSuffix(s, MAX_VARINT_BYTES, rest);
    } else if wire == WIRETYPE_FIXED64 {
      assert (s + rest)[..8] == s[..8];
    } else if wire == WIRETYPE_LENGTH_DELIMITED {
      NextStringIgnoresSuffix(s, rest);
    } else {
      assert (s + rest)[..4] == s[..4];
    }
  }

  lemma {:induction false} SkipFieldIgnoresSuffix(s: Bytes, tag: uint32, depth: nat, rest: Bytes)
    requires SkipField(s, tag, depth).FieldRead?
    ensures SkipField(s + rest, tag, depth) == SkipField(s, tag, depth)
    decreases |s|, 1
  {
    if GetTagWireType(tag) != WIRETYPE_START_GROUP {
      SkipScalarIgnoresSuffix(s, GetTagFieldNumber(tag), GetTagWireType(tag), rest);
    } else {
      SkipMessageIgnoresSuffix(s, depth - 1, rest);
    }
  }

  lemma {:induction false} SkipMessageIgnoresSuffix(s: Bytes, depth: nat, rest: Bytes)
    requires SkipMessage(s, depth).FieldsRead? && SkipMessage(s, depth).end != 0
    ensures SkipMessage(s + rest, depth) == SkipMessage(s, depth)
    decreases |s|, 0
  {
    hide SkipField, SkipMessage, NextTag, GetTagWireType;
    var t := NextTag(s);
    SkipMessageEnds(s, depth);
    NextTagIgnoresSuffix(s, rest);
    SkipMessageEnds(s + rest, depth);
    if GetTagWireType(t.tag) != WIRETYPE_END_GROUP {
      var value := s[t.size..];
      SkipMessageStep(s, value, t.tag, t.size, depth);
      var f := SkipField(value, t.tag, depth);
      SkipFieldIgnoresSuffix(value, t.tag, depth, rest);
      SkipMessageIgnoresSuffix(value[f.size..], depth, rest);
      DropOfAppend(s, t.size, rest);
      DropOfAppend(value, f.size, rest);
      SkipMessageStep(s + rest, value + rest, t.tag, t.size, depth);
    }
  }

  lemma SkipMessageEnds(s: Bytes, depth: nat)
    ensures var t := NextTag(s);
            if t.tag == 0 || GetTagWireType(t.tag) == WIRETYPE_END_GROUP
            then SkipMessage(s, depth) == FieldsRead([], t.tag, t.size)
            else SkipMessage(s, depth).FieldsRead? ==> SkipField(s[t.size..], t.tag, depth).FieldRead?
  {
  }

  lemma DropOfAppend(s: Bytes, k: nat, rest: Bytes)
    requires k <= |s|
    ensures (s + rest)[k..] == s[k..] + rest
  {
  }

  /** One round of the loop in SkipMessage */
  lemma SkipMessageStep(s: Bytes, value: Bytes, tag: uint32, size: nat, depth: nat)
    requires tag != 0 && GetTagWireType(tag) != WIRETYPE_END_GROUP
    requires NextTag(s) == TagRead(tag, size, false) && value == s[size..]
    requires SkipField(value, tag, depth).FieldRead?
    ensures var f := SkipField(value, tag, depth);
            var r := SkipMessage(value[f.size..], depth);
            SkipMessage(s, depth) ==
            if r.NoFields? then NoFields else FieldsRead([f.field] + r.fields, r.end, size + f.size + r.size)
  {
  }

  // ---- Writing -------------------------------------------------------------------------

  function SerializeField(f: UnknownField): (s: Bytes)
    decreases f, 1
  {
    EncodeVarint(MakeTag(f.number, f.Wire())) + Payload(f)
  }

  /** Everything after the tag */
  function Payload(f: UnknownField): Bytes
    decreases f, 0
  {
    match f
    case VarintField(_, v) => EncodeVarint(v)
    case Fixed64Field(_, v) => EncodeLE(v, 8)
    case LengthDelimitedField(_, text) => EncodeVarint(|text|) + text
    case GroupField(number, fields) => SerializeFields(fields) + EncodeVarint(MakeTag(number, WIRETYPE_END_GROUP))
    case Fixed32Field(_, v) => EncodeLE(v, 4)
  }

  function SerializeFields(fields: seq<UnknownField>): (s: Bytes)
    decreases fields
  {
    if fields == [] then [] else SerializeField(fields[0]) + SerializeFields(fields[1..])
  }

  /** A field that reading can produce when depth more groups may be opened. */
  predicate WellFormedField(f: UnknownField, depth: nat)
    decreases f
  {
    match f
    case VarintField(number, _) => number != 0
    case LengthDelimitedField(_, text) => |text| < TWO_31
    case GroupField(_, fields) => depth > 0 && WellFormedFields(fields, depth - 1)
    case _ => true
  }

  predicate WellFormedFields(fields: seq<UnknownField>, depth: nat)
    decreases fields
  {
    fields == [] || (WellFormedField(fields[0], depth) && WellFormedFields(fields[1..], depth))
  }

  lemma NextTagReads(tag: uint32, rest: Bytes)
    ensures NextTag(EncodeVarint(tag) + rest) == TagRead(tag, |EncodeVarint(tag)|, false)
  {
    Varint32RoundTrip(tag, rest);
  }

  lemma NextStringReads(text: Bytes, rest: Bytes)
    requires |text| < TWO_31
    ensures var s := EncodeVarint(|text|) + text;
            NextString(s + rest) == Some((text, |s|))
  {
    var n := |EncodeVarint(|text|)|;
    var s := EncodeVarint(|text|) + text;
    Varint32RoundTrip(|text|, text + rest);
    assert s + rest == EncodeVarint(|text|) + (text + rest);
    assert (s + rest)[n..n + |text|] == text;
  }

  lemma SkipScalarReads(f: UnknownField, rest: Bytes)
    requires !f.GroupField? && WellFormedField(f, 0)
    ensures SkipScalar(Payload(f) + rest, f.number, f.Wire()) == FieldRead(f, |Payload(f)|)
  {
    match f
    case VarintField(_, v) => Varint64RoundTrip(v, rest);
    case Fixed64Field(_, v) => FixedReads(v, 8, rest);
    case LengthDelimitedField(_, text) => NextStringReads(text, rest);
    case Fixed32Field(_, v) => FixedReads(v, 4, rest);
  }

  lemma FixedReads(v: nat, k: nat, rest: Bytes)
    requires (k == 4 && v < TWO_32) || (k == 8 && v < TWO_64)
    ensures (EncodeLE(v, k) + rest)[..k] == EncodeLE(v, k) && DecodeLE(EncodeLE(v, k)) == v
  {
    assert v < Pow256(k) by { Pow256Values(); }
    DecodeEncodeLE(v, k);
  }

  /** A field that was written is read back, whatever follows it. */
  lemma {:induction false} SkipFieldReads(f: UnknownField, depth: nat, rest: Bytes)
    requires WellFormedField(f, depth)
    ensures SkipField(Payload(f) + rest, MakeTag(f.number, f.Wire()), depth) == FieldRead(f, |Payload(f)|)
    decreases f, 1
  {
    hide NextTag, SkipScalar, SkipMessage, SerializeFields, EncodeVarint;
    if f.GroupField? {
      var end := MakeTag(f.number, WIRETYPE_END_GROUP);
      SkipMessageReads(f.fields, end, depth - 1, rest);
      assert Payload(f) + rest == SerializeFields(f.fields) + (EncodeVarint(end) + rest);
    } else {
      SkipScalarReads(f, rest);
    }
  }

  lemma FieldTagIsNotAnEnd(f: UnknownField, depth: nat)
    requires WellFormedField(f, depth)
    ensures MakeTag(f.number, f.Wire()) != 0
    ensures GetTagWireType(MakeTag(f.number, f.Wire())) != WIRETYPE_END_GROUP
  {
    hide GetTagWireType, GetTagFieldNumber;
    assert MakeTag(f.number, f.Wire()) == f.number * 8 + f.Wire();
  }

  /** A written field at the front is the first field that is read. */
  lemma {:induction false} FieldThenFields(f: UnknownField, depth: nat, more: Bytes)
    requires WellFormedField(f, depth)
    ensures var r := SkipMessage(more, depth);
            SkipMessage(SerializeField(f) + more, depth) ==
            if r.NoFields? then NoFields else FieldsRead([f] + r.fields, r.end, |SerializeField(f)| + r.size)
    decreases f, 2
  {
    hide NextTag, SkipField, SkipMessage, EncodeVarint, Payload, GetTagWireType, GetTagFieldNumber, MakeTag, WellFormedField;
    var tag := MakeTag(f.number, f.Wire());
    var head := EncodeVarint(tag);
    FieldTagIsNotAnEnd(f, depth);
    NextTagReads(tag, Payload(f) + more);
    SkipFieldReads(f, depth, more);
    DropPrefix(head, Payload(f) + more);
    DropPrefix(Payload(f), more);
    SkipMessageStep(head + (Payload(f) + more), Payload(f) + more, tag, |head|, depth);
    Regroup(head, Payload(f), more);
  }

  lemma {:induction false} SkipMessageReads(fields: seq<UnknownField>, end: uint32, depth: nat, rest: Bytes)
    requires WellFormedFields(fields, depth)
    requires GetTagWireType(end) == WIRETYPE_END_GROUP
    ensures SkipMessage(SerializeFields(fields) + (EncodeVarint(end) + rest), depth) ==
            FieldsRead(fields, end, |SerializeFields(fields)| + |EncodeVarint(end)|)
    decreases fields, 0
  {
    hide NextTag, SkipField, SerializeField, EncodeVarint;
    var tail := EncodeVarint(end) + rest;
    if fields == [] {
      assert [] + tail == tail;
      NextTagReads(end, rest);
    } else {
      hide SkipMessage;
      var more := SerializeFields(fields[1..]) + tail;
      FieldThenFields(fields[0], depth, more);
      SkipMessageReads(fields[1..], end, depth, rest);
      Regroup(SerializeField(fields[0]), SerializeFields(fields[1..]), tail);
    }
  }

  lemma DropPrefix(a: Bytes, b: Bytes)
    ensures (a + b)[|a|..] == b
  {
  }

  // ---- Reading produces only well-formed fields --------------------------------------------

  lemma {:induction false} SkipFieldWellFormed(s: Bytes, tag: uint32, depth: nat)
    requires tag != 0 && SkipField(s, tag, depth).FieldRead?
    ensures WellFormedField(SkipField(s, tag, depth).field, depth)
    decreases |s|, 1
  {
    if GetTagWireType(tag) == WIRETYPE_START_GROUP {
      SkipMessageWellFormed(s, depth - 1);
    }
  }

  lemma {:induction false} SkipMessageWellFormed(s: Bytes, depth: nat)
    requires SkipMessage(s, depth).FieldsRead?
    ensures WellFormedFields(SkipMessage(s, depth).fields, depth)
    decreases |s|, 0
  {
    var t := NextTag(s);
    if t.tag != 0 && GetTagWireType(t.tag) != WIRETYPE_END_GROUP {
      var value := s[t.size..];
      SkipFieldWellFormed(value, t.tag, depth);
      var f := SkipField(value, t.tag, depth);
      SkipMessageWellFormed(value[f.size..], depth);
      assert SkipMessage(s, depth).fields[1..] == SkipMessage(value[f.size..], depth).fields;
    }
  }

  lemma {:induction false} WellFormedAppend(a: seq<UnknownField>, b: seq<UnknownField>, depth: nat)
    ensures WellFormedFields(a + b, depth) <==> WellFormedFields(a, depth) && WellFormedFields(b, depth)
  {
    if a == [] {
      assert a + b == b;
    } else {
      WellFormedAppend(a[1..], b, depth);
      assert (a + b)[1..] == a[1..] + b;
    }
  }
}
