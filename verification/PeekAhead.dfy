/**
 When the parser's shortcut leaves another last tag than the plain loop, said without running either:
 FailsPastPeek spelled out in terms of what is in the input.
 */
module PeekAhead {
  import opened Bytes
  import opened Varint
  import opened WireFormat
  import opened CodedStream
  import opened UnknownFields
  import opened Messages
  import opened PacketMessages

  // ---- What was read can be read from just the bytes that were taken ------------------------------------

  lemma {:induction false} DecodeFromPrefix(s: Bytes, k: nat, m: nat)
    requires DecodeVarint(s, k).Some? && DecodeVarint(s, k).value.1 <= m <= |s|
    ensures DecodeVarint(s[..m], k) == DecodeVarint(s, k)
    decreases k
  {
    if s[0] >= 128 {
      DecodeFromPrefix(s[1..], k - 1, m - 1);
      assert s[..m][1..] == s[1..][..m - 1];
    }
  }

  lemma NextTagFromPrefix(s: Bytes, m: nat)
    requires NextTag(s).tag != 0 && NextTag(s).size <= m <= |s|
    ensures NextTag(s[..m]) == NextTag(s)
  {
    DecodeFromPrefix(s, MAX_VARINT_BYTES, m);
  }

  lemma ReadVarint32FromPrefix(s: Bytes, m: nat)
    requires ReadVarint32(s).Some? && ReadVarint32(s).value.1 <= m <= |s|
    ensures ReadVarint32(s[..m]) == ReadVarint32(s)
  {
    hide DecodeVarint;
    DecodeFromPrefix(s, MAX_VARINT_BYTES, m);
  }

  lemma NextStringFromPrefix(s: Bytes, m: nat)
    requires NextString(s).Some? && NextString(s).value.1 <= m <= |s|
    ensures NextString(s[..m]) == NextString(s)
  {
    hide ReadVarint32;
    ReadVarint32FromPrefix(s, m);
    var (len, n) := ReadVarint32(s).value;
    assert s[..m][n..n + len] == s[n..n + len];
  }

  lemma SkipScalarFromPrefix(s: Bytes, number: fieldnum, wire: wiretype, m: nat)
    requires SkipScalar(s, number, wire).FieldRead? && SkipScalar(s, number, wire).size <= m <= |s|
    ensures SkipScalar(s[..m], number, wire) == SkipScalar(s, number, wire)
  {
    hide DecodeVarint, DecodeLE;
    if wire == WIRETYPE_VARINT {
      DecodeFromPrefix(s, MAX_VARINT_BYTES, m);
    } else if wire == WIRETYPE_FIXED64 {
      assert s[..m][..8] == s[..8];
    } else if wire == WIRETYPE_LENGTH_DELIMITED {
      NextStringFromPrefix(s, m);
    } else {
      assert s[..m][..4] == s[..4];
    }
  }

  lemma {:induction false} SkipFieldFromPrefix(s: Bytes, tag: uint32, depth: nat, m: nat)
    requires SkipField(s, tag, depth).FieldRead? && SkipField(s, tag, depth).size <= m <= |s|
    ensures SkipField(s[..m], tag, depth) == SkipField(s, tag, depth)
    decreases |s|, 1
  {
    if GetTagWireType(tag) != WIRETYPE_START_GROUP {
      SkipScalarFromPrefix(s, GetTagFieldNumber(tag), GetTagWireType(tag), m);
    } else {
      SkipMessageFromPrefix(s, depth - 1, m);
    }
  }

  lemma {:induction false} SkipMessageFromPrefix(s: Bytes, depth: nat, m: nat)
    requires SkipMessage(s, depth).FieldsRead? && SkipMessage(s, depth).end != 0 && SkipMessage(s, depth).size <= m <= |s|
    ensures SkipMessage(s[..m], depth) == SkipMessage(s, depth)
    decreases |s|, 0
  {
    hide SkipField, SkipMessage, NextTag, GetTagWireType;
    var t := NextTag(s);
    SkipMessageEnds(s, depth);
    if GetTagWireType(t.tag) == WIRETYPE_END_GROUP {
      NextTagFromPrefix(s, m);
      SkipMessageEnds(s[..m], depth);
    } else {
      var value := s[t.size..];
      SkipMessageStep(s, value, t.tag, t.size, depth);
      NextTagFromPrefix(s, m);
      var f := SkipField(value, t.tag, depth);
      SkipFieldFromPrefix(value, t.tag, depth, m - t.size);
      SkipMessageFromPrefix(value[f.size..], depth, m - t.size - f.size);
      TakeDrop(s, m, t.size);
      TakeDrop(value, m - t.size, f.size);
      SkipMessageStep(s[..m], value[..m - t.size], t.tag, t.size, depth);
    }
  }

  lemma TakeDrop(s: Bytes, m: nat, n: nat)
    requires n <= m <= |s|
    ensures s[..m][n..] == s[n..][..m - n]
  {
  }

  lemma MergeFieldFromPrefix(s: Bytes, tag: uint32, msg: Message, m: nat)
    requires MergeField(NOTIFY_SCHEMA, s, tag, msg).Next? && MergeField(NOTIFY_SCHEMA, s, tag, msg).size <= m <= |s|
    ensures MergeField(NOTIFY_SCHEMA, s[..m], tag, msg) == MergeField(NOTIFY_SCHEMA, s, tag, msg)
  {
    var number, wire := GetTagFieldNumber(tag), GetTagWireType(tag);
    hide GetTagFieldNumber, GetTagWireType, NextString, SkipField;
    if Defines(NOTIFY_SCHEMA, number, wire) {
      NextStringFromPrefix(s, m);
    } else {
      SkipFieldFromPrefix(s, tag, RECURSION_LIMIT, m);
    }
  }

  // ---- The condition ---------------------------------------------------------------------------------------

  /** The bytes are whole fields. */
  ghost predicate AreFields(s: Bytes) { Merge(NOTIFY_SCHEMA, s, Messages.EMPTY).atEnd }

  /** The bytes are one name field. */
  predicate IsName(s: Bytes) {
    var t := NextTag(s);
    t.tag == NAME_TAG && NextString(s[t.size..]).Some? && t.size + NextString(s[t.size..]).value.1 == |s|
  }

  /** A message's one-byte tag, and no whole string behind it */
  predicate IsBadMessage(s: Bytes) { s != [] && s[0] == MESSAGE_TAG && NextString(s[1..]) == None }

  /** Whole fields, a name, and a message that cannot be read */
  ghost predicate BadMessageBehindName(s: Bytes, j: nat, k: nat) {
    j <= k <= |s| && AreFields(s[..j]) && IsName(s[j..k]) && IsBadMessage(s[k..])
  }

  lemma OneByteTag(s: Bytes)
    requires s != [] && s[0] == MESSAGE_TAG
    ensures NextTag(s) == TagRead(MESSAGE_TAG, 1, false)
  {
  }

  lemma NameIsKnown(s: Bytes)
    ensures MergeField(NOTIFY_SCHEMA, s, NAME_TAG, Messages.EMPTY).Next? <==> NextString(s).Some?
    ensures NextString(s).Some? ==> MergeField(NOTIFY_SCHEMA, s, NAME_TAG, Messages.EMPTY).size == NextString(s).value.1
  {
    hide NextString;
  }

  lemma FailsUnfolds(s: Bytes, previous: uint32)
    ensures var t := NextTag(s);
            FailsPastPeek(s, previous) <==>
              t.tag != 0 &&
              if previous == NAME_TAG && IsBadMessage(s) then true
              else
                match MergeField(NOTIFY_SCHEMA, s[t.size..], t.tag, Messages.EMPTY)
                case Done(_, _) => false
                case Next(_, n) => FailsPastPeek(s[t.size..][n..], t.tag)
  {
    hide MergeField, NextString;
    if s != [] && s[0] == MESSAGE_TAG { OneByteTag(s); }
  }

  lemma FieldsUnfold(s: Bytes)
    ensures var t := NextTag(s);
            AreFields(s) <==>
              if t.tag == 0 then s == []
              else
                var step := MergeField(NOTIFY_SCHEMA, s[t.size..], t.tag, Messages.EMPTY);
                step.Next? && AreFields(s[t.size..][step.size..])
  {
    var t := NextTag(s);
    MergeUnfolds(NOTIFY_SCHEMA, s, Messages.EMPTY);
    if t.tag == 0 {
      if s != [] { NotAtEnd(s); }
    } else {
      hide NextTag, MergeField, Merge;
      var value := s[t.size..];
      var step := MergeField(NOTIFY_SCHEMA, value, t.tag, Messages.EMPTY);
      if step.Next? {
        AnyMessage(value[step.size..], step.msg, Messages.EMPTY);
      }
    }
  }

  lemma NotAtEnd(s: Bytes)
    requires s != []
    ensures !NextTag(s).atEnd
  {
  }

  /** Whether bytes are whole fields does not depend on the message they are merged into. */
  lemma {:induction false} AnyMessage(s: Bytes, x: Message, y: Message)
    ensures Merge(NOTIFY_SCHEMA, s, x).atEnd == Merge(NOTIFY_SCHEMA, s, y).atEnd
    decreases |s|
  {
    hide NextTag, MergeField, Merge;
    MergeUnfolds(NOTIFY_SCHEMA, s, x);
    MergeUnfolds(NOTIFY_SCHEMA, s, y);
    var t := NextTag(s);
    if t.tag != 0 {
      var value := s[t.size..];
      SameSize(value, t.tag, x);
      SameSize(value, t.tag, y);
      var a, b := MergeField(NOTIFY_SCHEMA, value, t.tag, x), MergeField(NOTIFY_SCHEMA, value, t.tag, y);
      if a.Next? {
        AnyMessage(value[a.size..], a.msg, b.msg);
      }
    }
  }

  /** The first field of s, taken off, and the rest split where s is */
  lemma FieldBefore(s: Bytes, j: nat, k: nat)
    requires j <= k <= |s| && NextTag(s).tag != 0
    requires var t := NextTag(s); MergeField(NOTIFY_SCHEMA, s[t.size..], t.tag, Messages.EMPTY).Next?
    requires var t := NextTag(s); t.size + MergeField(NOTIFY_SCHEMA, s[t.size..], t.tag, Messages.EMPTY).size <= j
    ensures var t := NextTag(s);
            var n := t.size + MergeField(NOTIFY_SCHEMA, s[t.size..], t.tag, Messages.EMPTY).size;
            BadMessageBehindName(s, j, k) <==> BadMessageBehindName(s[n..], j - n, k - n)
  {
    hide NextTag, MergeField, IsName, IsBadMessage, AreFields;
    var t := NextTag(s);
    var value := s[t.size..];
    var step := MergeField(NOTIFY_SCHEMA, value, t.tag, Messages.EMPTY);
    var n := t.size + step.size;
    NextTagFromPrefix(s, j);
    MergeFieldFromPrefix(value, t.tag, Messages.EMPTY, j - t.size);
    TakeDrop(s, j, t.size);
    TakeDrop(value, j - t.size, step.size);
    FieldsUnfold(s[..j]);
    DropTwice(s, t.size, step.size);
    assert s[n..][j - n..k - n] == s[j..k] && s[n..][k - n..] == s[k..];
  }

  lemma {:induction false} FailureHasBadMessage(s: Bytes, previous: uint32) returns (j: nat, k: nat)
    requires FailsPastPeek(s, previous)
    ensures (previous == NAME_TAG && IsBadMessage(s)) || BadMessageBehindName(s, j, k)
    decreases |s|
  {
    hide NextTag, MergeField, IsName, IsBadMessage, AreFields, FailsPastPeek, BadMessageBehindName;
    j, k := 0, 0;
    FailsUnfolds(s, previous);
    var t := NextTag(s);
    if !(previous == NAME_TAG && IsBadMessage(s)) {
      var value := s[t.size..];
      var step := MergeField(NOTIFY_SCHEMA, value, t.tag, Messages.EMPTY);
      var n := t.size + step.size;
      DropTwice(s, t.size, step.size);
      j, k := FailureHasBadMessage(s[n..], t.tag);
      if t.tag == NAME_TAG && IsBadMessage(s[n..]) {
        NameFirst(s, n);
        j, k := 0, n;
      } else {
        InRange(s[n..], j, k);
        FieldBefore(s, j + n, k + n);
        j, k := j + n, k + n;
      }
    }
  }

  lemma InRange(s: Bytes, j: nat, k: nat)
    requires BadMessageBehindName(s, j, k)
    ensures j <= k <= |s|
  {
  }

  lemma NameFirst(s: Bytes, n: nat)
    requires NextTag(s).tag == NAME_TAG && n <= |s| && IsBadMessage(s[n..])
    requires var t := NextTag(s); var step := MergeField(NOTIFY_SCHEMA, s[t.size..], NAME_TAG, Messages.EMPTY); step.Next? && n == t.size + step.size
    ensures BadMessageBehindName(s, 0, n)
  {
    hide NextTag, MergeField, NextString, IsBadMessage;
    var t := NextTag(s);
    NameIsKnown(s[t.size..]);
    NextTagFromPrefix(s, n);
    NextStringFromPrefix(s[t.size..], n - t.size);
    TakeDrop(s, n, t.size);
    FieldsUnfold([]);
    NothingNext();
    assert s[..0] == [] && s[0..n] == s[..n];
  }

  lemma NothingNext()
    ensures NextTag([]).tag == 0
  {
  }

  lemma {:induction false} BadMessageFails(s: Bytes, j: nat, k: nat, previous: uint32)
    requires BadMessageBehindName(s, j, k)
    ensures FailsPastPeek(s, previous)
    decreases |s|
  {
    hide NextTag, MergeField, IsName, IsBadMessage, AreFields, FailsPastPeek, BadMessageBehindName;
    InRange(s, j, k);
    FailsUnfolds(s, previous);
    FirstOf(s, j, k);
    var t := NextTag(s);
    var value := s[t.size..];
    var step := MergeField(NOTIFY_SCHEMA, value, t.tag, Messages.EMPTY);
    var n := t.size + step.size;
    if !(previous == NAME_TAG && IsBadMessage(s)) {
      DropTwice(s, t.size, step.size);
      if j == 0 {
        FailsUnfolds(s[n..], NAME_TAG);
        BadTag(s[n..]);
      } else {
        FieldBefore(s, j, k);
        BadMessageFails(s[n..], j - n, k - n, t.tag);
      }
    }
  }

  lemma BadTag(s: Bytes)
    requires IsBadMessage(s)
    ensures NextTag(s).tag != 0
  {
    OneByteTag(s);
  }

  /** The first field: the name, or one of the fields before it */
  lemma FirstOf(s: Bytes, j: nat, k: nat)
    requires BadMessageBehindName(s, j, k)
    ensures var t := NextTag(s);
            && t.tag != 0
            && var step := MergeField(NOTIFY_SCHEMA, s[t.size..], t.tag, Messages.EMPTY);
               && step.Next?
               && if j == 0 then t.tag == NAME_TAG && t.size + step.size == k && IsBadMessage(s[k..]) else t.size + step.size <= j
  {
    hide NextTag, MergeField, NextString, IsBadMessage, AreFields;
    if j == 0 {
      var f := s[..k];
      assert s[0..k] == f && s == f + s[k..];
      NextTagIgnoresSuffix(f, s[k..]);
      var n := NextTag(f).size;
      NextStringIgnoresSuffix(f[n..], s[k..]);
      assert s[n..] == f[n..] + s[k..];
      NameIsKnown(s[n..]);
    } else {
      var f := s[..j];
      assert s == f + s[j..];
      FieldsUnfold(f);
      NonEmpty(f);
      NextTagIgnoresSuffix(f, s[j..]);
      var n := NextTag(f).size;
      MergeFieldIgnoresSuffix(NOTIFY_SCHEMA, f[n..], NextTag(f).tag, Messages.EMPTY, s[j..]);
      assert s[n..] == f[n..] + s[j..];
    }
  }

  lemma NonEmpty(f: Bytes)
    requires f != [] && AreFields(f)
    ensures NextTag(f).tag != 0
  {
    hide NextTag, MergeField;
    FieldsUnfold(f);
  }

  /**
   The shortcut's last tag differs from the plain loop's if and only if the input starts with whole
   fields and a name, and right behind the name stands the byte 42 with no whole string behind it.
   */
  lemma FailsPastPeekIff(s: Bytes)
    ensures FailsPastPeek(s, 0) <==> exists j, k :: BadMessageBehindName(s, j, k)
  {
    hide FailsPastPeek, BadMessageBehindName;
    if FailsPastPeek(s, 0) {
      var j, k := FailureHasBadMessage(s, 0);
    }
    if j, k :| BadMessageBehindName(s, j, k) {
      BadMessageFails(s, j, k, 0);
    }
  }
}
