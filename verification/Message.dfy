/**
 Messages as values, with the plain parser that only reads a tag and dispatches on it, the
 serialiser, ByteSize and MergeFrom, for every message type made of string and bool fields.
 The generated classes of packet.pb.cc are proved against this module.
 */
module Messages {
  import opened Bytes
  import opened Varint
  import opened WireFormat
  import opened CodedStream
  import opened UnknownFields

  datatype Kind = StringKind | BoolKind

  /** the kind of each field number that the message type defines */
  type Schema = map<fieldnum, Kind>

  datatype FieldValue = Text(text: Bytes) | Flag(flag: bool)

  /** The fields that are set, and the unknown fields in the order in which they came. */
  datatype Message = Message(known: map<fieldnum, FieldValue>, unknown: seq<UnknownField>)

  const EMPTY := Message(map[], [])

  function WireOf(kind: Kind): wiretype {
    if kind == StringKind then WIRETYPE_LENGTH_DELIMITED else WIRETYPE_VARINT
  }

  predicate Defines(schema: Schema, number: fieldnum, wire: wiretype) {
    number in schema && WireOf(schema[number]) == wire
  }

  // ---- Parsing ---------------------------------------------------------------------------

  datatype ValueRead = NoValue | ValueRead(value: FieldValue, size: nat)

  function ReadValue(s: Bytes, kind: Kind): (r: ValueRead)
    ensures r.ValueRead? ==> 1 <= r.size <= |s|
  {
    match kind
    case StringKind =>
      (match NextString(s)
       case None => NoValue
       case Some((text, n)) => ValueRead(Text(text), n))
    case BoolKind =>
      (match ReadVarint32(s)
       case None => NoValue
       case Some((v, n)) => ValueRead(Flag(v != 0), n))
  }

  /** What one field does: the loop goes on with the message and the bytes taken, or ends. */
  datatype Step = Next(msg: Message, size: nat) | Done(ok: bool, msg: Message)

  /** mutable_name() sets the has-bit before the string is read. */
  function Touched(m: Message, number: fieldnum, kind: Kind): Message {
    if kind == StringKind && number !in m.known then m.(known := m.known[number := Text([])]) else m
  }

  function MergeField(schema: Schema, s: Bytes, tag: uint32, m: Message): (r: Step)
    ensures r.Next? ==> r.size <= |s|
  {
    var number, wire := GetTagFieldNumber(tag), GetTagWireType(tag);
    if Defines(schema, number, wire) then
      var r := ReadValue(s, schema[number]);
      if r.NoValue? then Done(false, Touched(m, number, schema[number]))
      else Next(m.(known := m.known[number := r.value]), r.size)
    else if wire == WIRETYPE_END_GROUP then Done(true, m)
    else
      var f := SkipField(s, tag, RECURSION_LIMIT);
      if f.NoField? then Done(false, m) else Next(m.(unknown := m.unknown + [f.field]), f.size)
  }

  /** The answer of the parser, the message, the bytes taken, the last tag and whether the end of the input was seen. */
  datatype Outcome = Outcome(ok: bool, msg: Message, size: nat, lastTag: uint32, atEnd: bool) {
    function After(n: nat): Outcome {
      this.(size := n + size)
    }
  }

  function Merge(schema: Schema, s: Bytes, m: Message): (r: Outcome)
    ensures r.size <= |s|
    ensures r.atEnd ==> r.ok && r.size == |s| && r.lastTag == 0
    decreases |s|
  {
    var t := NextTag(s);
    if t.tag == 0 then Outcome(true, m, t.size, 0, t.atEnd)
    else
      match MergeField(schema, s[t.size..], t.tag, m)
      case Done(ok, m') => Outcome(ok, m', t.size, t.tag, false)
      case Next(m', n) => Merge(schema, s[t.size..][n..], m').After(t.size + n)
  }

  function MergeFrom(to: Message, from: Message): Message {
    Message(to.known + from.known, to.unknown + from.unknown)
  }

  // ---- Concatenation is merge ----------------------------------------------------------------

  lemma MergeFieldIgnoresSuffix(schema: Schema, s: Bytes, tag: uint32, m: Message, rest: Bytes)
    requires MergeField(schema, s, tag, m).Next?
    ensures MergeField(schema, s + rest, tag, m) == MergeField(schema, s, tag, m)
  {
    var number, wire := GetTagFieldNumber(tag), GetTagWireType(tag);
    hide GetTagFieldNumber, GetTagWireType;
    if Defines(schema, number, wire) {
      ReadValueIgnoresSuffix(s, schema[number], rest);
    } else {
      SkipFieldIgnoresSuffix(s, tag, RECURSION_LIMIT, rest);
    }
  }

  lemma ReadValueIgnoresSuffix(s: Bytes, kind: Kind, rest: Bytes)
    requires ReadValue(s, kind).ValueRead?
    ensures ReadValue(s + rest, kind) == ReadValue(s, kind)
  {
    if kind == StringKind {
      NextStringIgnoresSuffix(s, rest);
    } else {
      DecodeIgnoresSuffix(s, MAX_VARINT_BYTES, rest);
    }
  }

  lemma MergeUnfolds(schema: Schema, s: Bytes, m: Message)
    ensures var t := NextTag(s);
            Merge(schema, s, m) ==
            if t.tag == 0 then Outcome(true, m, t.size, 0, t.atEnd)
            else
              match MergeField(schema, s[t.size..], t.tag, m)
              case Done(ok, m') => Outcome(ok, m', t.size, t.tag, false)
              case Next(m', n) => Merge(schema, s[t.size..][n..], m').After(t.size + n)
  {
  }

  /** An input that was read to its end leaves the parser where it goes on with what follows. */
  lemma {:induction false} MergeContinues(schema: Schema, a: Bytes, b: Bytes, m: Message)
    requires Merge(schema, a, m).atEnd
    ensures Merge(schema, a + b, m) == Merge(schema, b, Merge(schema, a, m).msg).After(|a|)
    decreases |a|
  {
    hide MergeField, NextTag, Merge;
    MergeUnfolds(schema, a, m);
    var t := NextTag(a);
    if t.tag == 0 {
      AtEndIsEmpty(a);
      assert a + b == b;
    } else {
      NextTagIgnoresSuffix(a, b);
      var value := a[t.size..];
      var step := MergeField(schema, value, t.tag, m);
      MergeFieldIgnoresSuffix(schema, value, t.tag, m, b);
      DropOfAppend(a, t.size, b);
      DropOfAppend(value, step.size, b);
      MergeContinues(schema, value[step.size..], b, step.msg);
      MergeUnfolds(schema, a + b, m);
    }
  }

  lemma AtEndIsEmpty(s: Bytes)
    requires NextTag(s).atEnd
    ensures s == []
  {
  }

  lemma MergeFieldCommutes(schema: Schema, s: Bytes, tag: uint32, x: Message, y: Message)
    requires MergeField(schema, s, tag, y).Next? || MergeField(schema, s, tag, y).ok
    ensures MergeField(schema, s, tag, MergeFrom(x, y)) ==
            match MergeField(schema, s, tag, y)
            case Next(y', n) => Next(MergeFrom(x, y'), n)
            case Done(ok, y') => Done(ok, MergeFrom(x, y'))
  {
    hide GetTagFieldNumber, GetTagWireType, ReadValue, SkipField;
    var number, wire := GetTagFieldNumber(tag), GetTagWireType(tag);
    if Defines(schema, number, wire) {
      var v := ReadValue(s, schema[number]).value;
      assert (x.known + y.known)[number := v] == x.known + y.known[number := v];
    } else if wire != WIRETYPE_END_GROUP {
      var f := SkipField(s, tag, RECURSION_LIMIT).field;
      assert x.unknown + y.unknown + [f] == x.unknown + (y.unknown + [f]);
    }
  }

  /** Parsing on top of x is parsing on its own and then merging into x. */
  lemma {:induction false} MergeCommutes(schema: Schema, s: Bytes, x: Message, y: Message)
    requires Merge(schema, s, y).ok
    ensures var r := Merge(schema, s, y);
            Merge(schema, s, MergeFrom(x, y)) == r.(msg := MergeFrom(x, r.msg))
    decreases |s|
  {
    hide MergeField;
    var t := NextTag(s);
    hide NextTag;
    if t.tag != 0 {
      var value := s[t.size..];
      MergeFieldCommutes(schema, value, t.tag, x, y);
      var step := MergeField(schema, value, t.tag, y);
      if step.Next? {
        MergeCommutes(schema, value[step.size..], x, step.msg);
      }
    }
  }

  lemma MergeWithEmpty(m: Message)
    ensures MergeFrom(m, EMPTY) == m
  {
  }

  /**
   Two inputs that each parse through to their end parse, one after the other, to the merge of
   the two messages: the last value of a known field wins, unknown fields are appended in order.
   */
  lemma ConcatenationIsMerge(schema: Schema, a: Bytes, b: Bytes, m: Message)
    requires Merge(schema, a, EMPTY).atEnd && Merge(schema, b, EMPTY).atEnd
    ensures var first, second := Merge(schema, a, EMPTY).msg, Merge(schema, b, EMPTY).msg;
            Merge(schema, a + b, m) == Outcome(true, MergeFrom(MergeFrom(m, first), second), |a + b|, 0, true)
  {
    hide Merge;
    var ra := Merge(schema, a, EMPTY);
    var rb := Merge(schema, b, EMPTY);
    MergeWithEmpty(m);
    MergeCommutes(schema, a, m, EMPTY);
    MergeContinues(schema, a, b, m);
    MergeWithEmpty(MergeFrom(m, ra.msg));
    MergeCommutes(schema, b, MergeFrom(m, ra.msg), EMPTY);
  }

  // ---- Writing ------------------------------------------------------------------------------

  function SerializeValue(number: fieldnum, v: FieldValue): Bytes {
    match v
    case Text(text) => EncodeVarint(MakeTag(number, WIRETYPE_LENGTH_DELIMITED)) + (EncodeVarint(|text|) + text)
    case Flag(flag) => EncodeVarint(MakeTag(number, WIRETYPE_VARINT)) + EncodeVarint(if flag then 1 else 0)
  }

  /** The known fields that are set, in the given order */
  function SerializeKnown(order: seq<fieldnum>, known: map<fieldnum, FieldValue>): Bytes {
    if order == [] then []
    else (if order[0] in known then SerializeValue(order[0], known[order[0]]) else []) + SerializeKnown(order[1..], known)
  }

  function Serialize(order: seq<fieldnum>, m: Message): Bytes {
    SerializeKnown(order, m.known) + SerializeFields(m.unknown)
  }

  function ValueSize(v: FieldValue): nat {
    match v
    case Text(text) => 1 + (VarintSize32(|text| % TWO_32) + |text|)
    case Flag(_) => 1 + 1
  }

  function KnownSize(order: seq<fieldnum>, known: map<fieldnum, FieldValue>): nat {
    if order == [] then 0
    else (if order[0] in known then ValueSize(known[order[0]]) else 0) + KnownSize(order[1..], known)
  }

  function ByteSize(order: seq<fieldnum>, m: Message): nat {
    KnownSize(order, m.known) + |SerializeFields(m.unknown)|
  }

  /** A value of the right kind, a string's length being an int */
  predicate Fits(kind: Kind, v: FieldValue) {
    match kind
    case StringKind => v.Text? && |v.text| < TWO_31
    case BoolKind => v.Flag?
  }

  /** Not a field that the message type defines */
  predicate Foreign(schema: Schema, f: UnknownField) {
    !Defines(schema, f.number, f.Wire())
  }

  predicate WellFormed(schema: Schema, m: Message) {
    && (forall k | k in m.known :: k in schema && Fits(schema[k], m.known[k]))
    && (forall f | f in m.unknown :: Foreign(schema, f))
    && WellFormedFields(m.unknown, RECURSION_LIMIT)
  }

  /** The fields of the message type in the order in which they are written; numbers below 16 have one-byte tags. */
  predicate WritesAll(order: seq<fieldnum>, schema: Schema) {
    OneByteTags(order) && (forall k | k in schema :: k in order)
  }

  predicate OneByteTags(order: seq<fieldnum>) {
    forall i | 0 <= i < |order| :: 1 <= order[i] < 16
  }

  lemma ValueSizeIsExact(number: fieldnum, v: FieldValue)
    requires 1 <= number < 16 && (v.Text? ==> |v.text| < TWO_31)
    ensures |SerializeValue(number, v)| == ValueSize(v)
  {
    if v.Text? {
      VarintSizeIsLength(|v.text|);
    }
  }

  lemma {:induction false} KnownSizeIsExact(order: seq<fieldnum>, known: map<fieldnum, FieldValue>)
    requires OneByteTags(order)
    requires forall k | k in known :: known[k].Text? ==> |known[k].text| < TWO_31
    ensures |SerializeKnown(order, known)| == KnownSize(order, known)
  {
    if order != [] {
      if order[0] in known { ValueSizeIsExact(order[0], known[order[0]]); }
      KnownSizeIsExact(order[1..], known);
    }
  }

  /** ByteSize foretells the exact number of bytes that serialising writes. */
  lemma ByteSizeIsExact(schema: Schema, order: seq<fieldnum>, m: Message)
    requires WritesAll(order, schema) && WellFormed(schema, m)
    ensures |Serialize(order, m)| == ByteSize(order, m)
  {
    KnownSizeIsExact(order, m.known);
  }

  // ---- Round trip ----------------------------------------------------------------------------

  function ValuePayload(v: FieldValue): Bytes {
    match v
    case Text(text) => EncodeVarint(|text|) + text
    case Flag(flag) => EncodeVarint(if flag then 1 else 0)
  }

  lemma ReadValueReads(kind: Kind, v: FieldValue, rest: Bytes)
    requires Fits(kind, v)
    ensures ReadValue(ValuePayload(v) + rest, kind) == ValueRead(v, |ValuePayload(v)|)
  {
    if v.Text? {
      NextStringReads(v.text, rest);
    } else {
      Varint32RoundTrip(if v.flag then 1 else 0, rest);
    }
  }

  lemma KnownFieldReads(schema: Schema, number: fieldnum, v: FieldValue, m: Message, rest: Bytes)
    requires number in schema && Fits(schema[number], v) && number != 0
    ensures Merge(schema, SerializeValue(number, v) + rest, m) ==
            Merge(schema, rest, m.(known := m.known[number := v])).After(|SerializeValue(number, v)|)
  {
    hide NextTag, ReadValue, EncodeVarint, GetTagFieldNumber, GetTagWireType;
    var tag := MakeTag(number, WireOf(schema[number]));
    var head, value := EncodeVarint(tag), ValuePayload(v);
    assert SerializeValue(number, v) == head + value;
    assert tag == number * 8 + WireOf(schema[number]);
    NextTagReads(tag, value + rest);
    ReadValueReads(schema[number], v, rest);
    hide ValuePayload, SerializeValue;
    Regroup(head, value, rest);
    DropPrefix(head, value + rest);
    DropPrefix(value, rest);
  }

  function Restrict(known: map<fieldnum, FieldValue>, order: seq<fieldnum>): map<fieldnum, FieldValue> {
    map k | k in known && k in order :: known[k]
  }

  lemma RestrictUnfolds(base: map<fieldnum, FieldValue>, known: map<fieldnum, FieldValue>, order: seq<fieldnum>)
    ensures order == [] ==> base + Restrict(known, order) == base
    ensures order != [] && order[0] in known ==>
              base[order[0] := known[order[0]]] + Restrict(known, order[1..]) == base + Restrict(known, order)
    ensures order != [] && order[0] !in known ==> Restrict(known, order[1..]) == Restrict(known, order)
  {
  }

  lemma {:induction false} KnownReads(schema: Schema, order: seq<fieldnum>, known: map<fieldnum, FieldValue>, m: Message, rest: Bytes)
    requires forall k | k in known :: k in schema && Fits(schema[k], known[k])
    requires OneByteTags(order)
    ensures Merge(schema, SerializeKnown(order, known) + rest, m) ==
            Merge(schema, rest, m.(known := m.known + Restrict(known, order))).After(|SerializeKnown(order, known)|)
    decreases order
  {
    hide Merge, SerializeValue, Restrict, Fits;
    RestrictUnfolds(m.known, known, order);
    if order == [] {
      assert [] + rest == rest;
    } else {
      var k, more := order[0], SerializeKnown(order[1..], known);
      if k in known {
        var m' := m.(known := m.known[k := known[k]]);
        Regroup(SerializeValue(k, known[k]), more, rest);
        KnownFieldReads(schema, k, known[k], m, more + rest);
        KnownReads(schema, order[1..], known, m', rest);
      } else {
        assert [] + more == more;
        KnownReads(schema, order[1..], known, m, rest);
      }
    }
  }

  lemma {:induction false} UnknownReads(schema: Schema, fields: seq<UnknownField>, m: Message)
    requires WellFormedFields(fields, RECURSION_LIMIT)
    requires forall f | f in fields :: Foreign(schema, f)
    ensures Merge(schema, SerializeFields(fields), m) ==
            Outcome(true, m.(unknown := m.unknown + fields), |SerializeFields(fields)|, 0, true)
    decreases fields
  {
    hide Merge, SerializeField, WellFormedField, Foreign;
    if fields == [] {
      MergeNothing(schema, m);
      assert m.unknown + [] == m.unknown;
    } else {
      var f, more := fields[0], SerializeFields(fields[1..]);
      UnknownFieldReads(schema, f, m, more);
      var m' := m.(unknown := m.unknown + [f]);
      UnknownReads(schema, fields[1..], m');
      assert m'.unknown + fields[1..] == m.unknown + fields;
    }
  }

  lemma MergeNothing(schema: Schema, m: Message)
    ensures Merge(schema, [], m) == Outcome(true, m, 0, 0, true)
  {
  }

  lemma UnknownFieldReads(schema: Schema, f: UnknownField, m: Message, rest: Bytes)
    requires WellFormedField(f, RECURSION_LIMIT) && Foreign(schema, f)
    ensures Merge(schema, SerializeField(f) + rest, m) ==
            Merge(schema, rest, m.(unknown := m.unknown + [f])).After(|SerializeField(f)|)
  {
    hide NextTag, SkipField, Payload, EncodeVarint, GetTagFieldNumber, GetTagWireType, WellFormedField;
    var tag := MakeTag(f.number, f.Wire());
    var head := EncodeVarint(tag);
    FieldTagIsNotAnEnd(f, RECURSION_LIMIT);
    NextTagReads(tag, Payload(f) + rest);
    SkipFieldReads(f, RECURSION_LIMIT, rest);
    Regroup(head, Payload(f), rest);
    DropPrefix(head, Payload(f) + rest);
    DropPrefix(Payload(f), rest);
  }

  /** Parsing what was written gives the message back, takes every byte and ends at the end of the input. */
  lemma RoundTrip(schema: Schema, order: seq<fieldnum>, m: Message)
    requires WritesAll(order, schema) && WellFormed(schema, m)
    ensures Merge(schema, Serialize(order, m), EMPTY) == Outcome(true, m, |Serialize(order, m)|, 0, true)
  {
    hide Merge;
    KnownReads(schema, order, m.known, EMPTY, SerializeFields(m.unknown));
    assert map[] + Restrict(m.known, order) == m.known;
    UnknownReads(schema, m.unknown, Message(m.known, []));
    assert [] + m.unknown == m.unknown;
  }

  // ---- Parsing produces only well-formed messages ------------------------------------------------

  lemma MergeFieldWellFormed(schema: Schema, s: Bytes, tag: uint32, m: Message)
    requires WellFormed(schema, m) && tag != 0
    ensures WellFormed(schema, MergeField(schema, s, tag, m).msg)
  {
    hide GetTagFieldNumber, GetTagWireType, SkipField, WellFormedField;
    var number, wire := GetTagFieldNumber(tag), GetTagWireType(tag);
    if !Defines(schema, number, wire) && wire != WIRETYPE_END_GROUP {
      var f := SkipField(s, tag, RECURSION_LIMIT);
      if f.FieldRead? {
        SkipFieldWellFormed(s, tag, RECURSION_LIMIT);
        assert WellFormedFields([f.field], RECURSION_LIMIT);
        WellFormedAppend(m.unknown, [f.field], RECURSION_LIMIT);
      }
    }
  }

  lemma {:induction false} MergeWellFormed(schema: Schema, s: Bytes, m: Message)
    requires WellFormed(schema, m)
    ensures WellFormed(schema, Merge(schema, s, m).msg)
    decreases |s|
  {
    hide MergeField, WellFormed;
    var t := NextTag(s);
    hide NextTag;
    if t.tag != 0 {
      var value := s[t.size..];
      MergeFieldWellFormed(schema, value, t.tag, m);
      var step := MergeField(schema, value, t.tag, m);
      if step.Next? {
        MergeWellFormed(schema, value[step.size..], step.msg);
      }
    }
  }

  /**
   Whatever bytes were parsed, over-long varints, repeated, swapped and foreign fields included,
   writing the message and parsing it again changes nothing.
   */
  lemma ReparseIsStable(schema: Schema, order: seq<fieldnum>, s: Bytes)
    requires WritesAll(order, schema)
    ensures var m := Merge(schema, s, EMPTY).msg;
            Merge(schema, Serialize(order, m), EMPTY) == Outcome(true, m, ByteSize(order, m), 0, true)
  {
    hide Merge;
    MergeWellFormed(schema, s, EMPTY);
    var m := Merge(schema, s, EMPTY).msg;
    RoundTrip(schema, order, m);
    ByteSizeIsExact(schema, order, m);
  }
}
