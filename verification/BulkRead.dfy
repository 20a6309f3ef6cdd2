/** Reading runs of a repeated field, one element at a time or straight from the buffer (wire_format_lite_inl.h). */
module BulkRead {
  import opened Bytes
  import opened Varint
  import opened WireFormat
  import opened CodedStream
  import opened RepeatedFields

  /** The declared types: varints of 32 or 64 bits, and words of a fixed width, unsigned or signed */
  datatype Primitive =
    | UInt32 | Int32 | SInt32 | Bool
    | UInt64 | Int64 | SInt64
    | FixedWord(width: nat) | SignedWord(width: nat)
  {
    predicate Fixed() { (FixedWord? || SignedWord?) && width > 0 }

    predicate Long() { UInt64? || Int64? || SInt64? }
  }

  datatype Element = NoElement | Element(value: int, size: nat)

  /** What the word that was read stands for */
  function Convert(kind: Primitive, word: nat): int {
    match kind
    case Int32 => Signed(32, word)
    case Int64 => Signed(64, word)
    case SInt32 => ZigZagDecode(32, word)
    case SInt64 => ZigZagDecode(64, word)
    case Bool => if word != 0 then 1 else 0
    case SignedWord(width) => if width > 0 then Signed(8 * width, word) else word
    case _ => word
  }

  function NextWord(s: Bytes, kind: Primitive): (r: Option<(nat, nat)>)
    ensures r.Some? ==> r.value.1 <= |s|
  {
    if kind.FixedWord? || kind.SignedWord? then NextFixed(s, kind.width)
    else if kind.Long() then ReadVarint64(s)
    else ReadVarint32(s)
  }

  /** ReadPrimitive */
  function NextPrimitive(s: Bytes, kind: Primitive): (r: Element)
    ensures r.Element? ==> r.size <= |s|
  {
    match NextWord(s, kind)
    case None => NoElement
    case Some((word, n)) => Element(Convert(kind, word), n)
  }

  /** One round of the plain loop: match the tag and read a value. */
  function Round(s: Bytes, tag: uint32, kind: Primitive): (r: Element)
    ensures r.Element? ==> r.size <= |s|
  {
    match ExpectTag(s, tag)
    case None => NoElement
    case Some(t) =>
      var e := NextPrimitive(s[t..], kind);
      if e.NoElement? then NoElement else Element(e.value, t + e.size)
  }

  datatype Elements = NoElements | Elements(values: seq<int>, size: nat)

  /** n rounds */
  function PlainRead(s: Bytes, tag: uint32, kind: Primitive, n: nat): (r: Elements)
    ensures r.Elements? ==> |r.values| == n && r.size <= |s|
    decreases n
  {
    if n == 0 then Elements([], 0)
    else
      var first := Round(s, tag, kind);
      if first.NoElement? then NoElements
      else
        var more := PlainRead(s[first.size..], tag, kind, n - 1);
        if more.NoElements? then NoElements else Elements([first.value] + more.values, first.size + more.size)
  }

  /** What bulk reads take in pieces is what the plain loop takes in one go. */
  lemma {:induction false} PlainReadInPieces(s: Bytes, tag: uint32, kind: Primitive, m: nat, n: nat)
    requires PlainRead(s, tag, kind, m).Elements?
    ensures var first := PlainRead(s, tag, kind, m);
            var second := PlainRead(s[first.size..], tag, kind, n);
            PlainRead(s, tag, kind, m + n) ==
            if second.NoElements? then NoElements else Elements(first.values + second.values, first.size + second.size)
    decreases m
  {
    hide Round, PlainRead;
    PlainReadUnfolds(s, tag, kind, m);
    var first := PlainRead(s, tag, kind, m);
    var second := PlainRead(s[first.size..], tag, kind, n);
    if m == 0 {
      assert s[0..] == s;
      assert second.Elements? ==> [] + second.values == second.values;
    } else {
      var r := Round(s, tag, kind);
      var rest := s[r.size..];
      PlainReadInPieces(rest, tag, kind, m - 1, n);
      PlainReadUnfolds(s, tag, kind, m + n);
      var more := PlainRead(rest, tag, kind, m - 1);
      assert rest[more.size..] == s[first.size..];
      assert second.Elements? ==> [r.value] + more.values + second.values == [r.value] + (more.values + second.values);
    }
  }

  lemma PlainReadUnfolds(s: Bytes, tag: uint32, kind: Primitive, n: nat)
    ensures PlainRead(s, tag, kind, n) ==
            if n == 0 then Elements([], 0)
            else
              var first := Round(s, tag, kind);
              if first.NoElement? then NoElements
              else
                var more := PlainRead(s[first.size..], tag, kind, n - 1);
                if more.NoElements? then NoElements else Elements([first.value] + more.values, first.size + more.size)
  {
  }

  /** One more round at the end */
  lemma {:induction false} PlainReadOneMore(s: Bytes, tag: uint32, kind: Primitive, n: nat)
    requires PlainRead(s, tag, kind, n).Elements?
    requires Round(s[PlainRead(s, tag, kind, n).size..], tag, kind).Element?
    ensures var sofar := PlainRead(s, tag, kind, n);
            var r := Round(s[sofar.size..], tag, kind);
            PlainRead(s, tag, kind, n + 1) == Elements(sofar.values + [r.value], sofar.size + r.size)
  {
    hide Round;
    var sofar := PlainRead(s, tag, kind, n);
    PlainReadInPieces(s, tag, kind, n, 1);
    var r := Round(s[sofar.size..], tag, kind);
    assert PlainRead(s[sofar.size..][r.size..], tag, kind, 0) == Elements([], 0);
  }

  /** The tag is next, and no whole value behind it. */
  predicate ValueIsMissing(s: Bytes, tag: uint32, kind: Primitive) { ExpectTag(s, tag).Some? && Round(s, tag, kind).NoElement? }

  /** The loop of ReadRepeatedPrimitive: at most slots elements, until the tag or a whole value is missing */
  ghost predicate StopsPlain(s: Bytes, tag: uint32, kind: Primitive, slots: nat, n: nat) {
    && n <= slots && PlainRead(s, tag, kind, n).Elements?
    && (n == slots || Round(s[PlainRead(s, tag, kind, n).size..], tag, kind).NoElement?)
  }

  /** The loop of ReadRepeatedFixedSizePrimitive: it also stops where less than one element is at hold. */
  ghost predicate StopsBulk(s: Bytes, tag: uint32, kind: Primitive, slots: nat, n: nat)
    requires kind.Fixed()
  {
    && n <= slots && PlainRead(s, tag, kind, n).Elements?
    && var rest := s[PlainRead(s, tag, kind, n).size..];
       n == slots || |rest| < |EncodeVarint(tag)| + kind.width || ExpectTag(rest, tag) == None
  }

  /** ExpectTagFromArray: the position past the tag, or None; the caller vouches for the bytes being there. */
  function ExpectTagFromArray(buffer: Bytes, at: nat, tag: uint32): (r: Option<nat>)
    requires at + |EncodeVarint(tag)| <= |buffer|
  {
    VarintSizeIsLength(tag);
    if tag < 0x80 then
      if buffer[at] == tag then Some(at + 1) else None
    else if tag < 0x4000 then
      if buffer[at] == OrBit7(tag) % 256 && buffer[at + 1] == tag / 128 % 256 then Some(at + 2) else None
    else None
  }

  lemma FromArrayAgrees(buffer: Bytes, at: nat, tag: uint32)
    requires at + |EncodeVarint(tag)| <= |buffer|
    ensures ExpectTagFromArray(buffer, at, tag) ==
            match ExpectTag(buffer[at..], tag)
            case None => None
            case Some(t) => Some(at + t)
    ensures ExpectTag(buffer[at..], tag).Some? ==> ExpectTag(buffer[at..], tag).value == |EncodeVarint(tag)|
  {
  }

  lemma {:induction false} RoomForOneMore(done: nat, available: nat, each: nat)
    requires done < available
    ensures (done + 1) * each == done * each + each <= available * each
    decreases available
  {
    if done + 1 < available {
      RoomForOneMore(done, available - 1, each);
    }
  }

  /** The tight loop over the raw buffer: at most available elements, no bounds checked on the way. */
  method ReadDirect(buffer: Bytes, start: nat, tag: uint32, kind: Primitive, available: nat, values: RepeatedField<int>)
    returns (numRead: nat)
    requires start <= |buffer| && values.Valid() && kind.Fixed()
    requires start + available * (|EncodeVarint(tag)| + kind.width) <= |buffer|
    requires values.currentSize + available <= values.elements.Length
    modifies values`currentSize, values.elements
    ensures values.Valid() && numRead <= available
    ensures values.Spent() == old(values.Spent()).(size := old(values.currentSize) + numRead)
    ensures var was := old(values.Contents());
            && |was| <= |values.Contents()|
            && values.Contents()[..|was|] == was
            && PlainRead(buffer[start..], tag, kind, numRead) ==
               Elements(values.Contents()[|was|..], numRead * (|EncodeVarint(tag)| + kind.width))
    ensures numRead < available ==> start + numRead * (|EncodeVarint(tag)| + kind.width) <= |buffer|
    ensures numRead < available ==> ExpectTag(buffer[start + numRead * (|EncodeVarint(tag)| + kind.width)..], tag) == None
  {
    hide ExpectTag, ExpectTagFromArray, PlainRead, Round, EncodeVarint;
    ghost var each := |EncodeVarint(tag)| + kind.width;
    ghost var was := values.Contents();
    PlainReadNothing(buffer[start..], tag, kind);
    ghost var vs: seq<int> := [];
    var at := start;
    numRead := 0;
    while numRead < available
      invariant numRead <= available && at == start + numRead * each <= |buffer|
      invariant values.Valid() && values.Contents() == was + vs
      invariant values.Spent() == old(values.Spent()).(size := old(values.currentSize) + numRead)
      invariant PlainRead(buffer[start..], tag, kind, numRead) == Elements(vs, numRead * each)
    {
      RoomForOneMore(numRead, available, each);
      RoundAt(buffer, at, tag, kind);
      DropTwice(buffer, start, numRead * each);
      var after := ExpectTagFromArray(buffer, at, tag);
      if after == None { break; }
      PlainReadOneMore(buffer[start..], tag, kind, numRead);
      var value := Convert(kind, DecodeLE(buffer[after.value..after.value + kind.width]));
      values.AddAlreadyReserved(value);
      at, numRead, vs := after.value + kind.width, numRead + 1, vs + [value];
    }
    assert (was + vs)[..|was|] == was && (was + vs)[|was|..] == vs;
  }

  lemma PlainReadNothing(s: Bytes, tag: uint32, kind: Primitive)
    ensures PlainRead(s, tag, kind, 0) == Elements([], 0)
  {
  }

  /** With enough bytes at hold, a round that finds the tag reads the word behind it. */
  lemma RoundAt(s: Bytes, at: nat, tag: uint32, kind: Primitive)
    requires kind.Fixed() && at + |EncodeVarint(tag)| + kind.width <= |s|
    ensures var after := ExpectTagFromArray(s, at, tag);
            Round(s[at..], tag, kind) ==
            if after == None then NoElement
            else Element(Convert(kind, DecodeLE(s[after.value..after.value + kind.width])), |EncodeVarint(tag)| + kind.width)
    ensures ExpectTagFromArray(s, at, tag) == None <==> ExpectTag(s[at..], tag) == None
    ensures ExpectTagFromArray(s, at, tag).Some? ==> ExpectTagFromArray(s, at, tag).value == at + |EncodeVarint(tag)|
  {
    hide ExpectTag, ExpectTagFromArray, EncodeVarint, DecodeLE, Convert;
    FromArrayAgrees(s, at, tag);
    SliceOfDrop(s, at, |EncodeVarint(tag)|, kind.width);
  }

  lemma SliceOfDrop(s: Bytes, at: nat, t: nat, width: nat)
    requires at + t + width <= |s|
    ensures s[at..][t..][..width] == s[at + t..at + t + width]
  {
  }

  lemma PlainReadFits(s: Bytes, start: nat, tag: uint32, kind: Primitive, n: nat)
    requires start <= |s| && PlainRead(s[start..], tag, kind, n).Elements?
    ensures start + PlainRead(s[start..], tag, kind, n).size <= |s|
  {
  }

  /** How many elements of the given size fit both the slots left and the bytes at hold */
  function Available(reserved: nat, size: nat, each: nat): (n: nat)
    requires each > 0
    ensures n <= reserved && n * each <= size
    ensures n == reserved || size < n * each + each
  {
    LeftOver(size, each);
    assert reserved < size / each ==> reserved * each <= size / each * each by {
      if reserved < size / each { RoomForOneMore(reserved, size / each, each); }
    }
    if reserved < size / each then reserved else size / each
  }

  lemma LeftOver(size: nat, each: nat)
    requires each > 0
    ensures size / each * each <= size < size / each * each + each
  {
  }

  /** The part after the first element: as many elements as fit the reserved slots and the bytes at hold */
  method ReadMore(tagSize: nat, tag: uint32, kind: Primitive, input: CodedInputStream, values: RepeatedField<int>)
    requires input.Valid() && values.Valid()
    requires tagSize == |EncodeVarint(tag)| && kind.Fixed()
    modifies input`pos, values`currentSize, values.elements
    ensures input.Valid() && values.Valid() && old(input.pos) <= input.pos
    ensures values.Spent() == old(values.Spent()).(size := values.currentSize) && old(values.currentSize) <= values.currentSize
    ensures var was := old(values.Contents());
            && values.Contents()[..|was|] == was
            && PlainRead(old(input.Rest()), tag, kind, |values.Contents()| - |was|) ==
               Elements(values.Contents()[|was|..], input.pos - old(input.pos))
            && StopsBulk(old(input.Rest()), tag, kind, old(values.elements.Length - values.currentSize), |values.Contents()| - |was|)
  {
    hide ExpectTag, PlainRead, EncodeVarint, Available;
    PlainReadNothing(input.Rest(), tag, kind);
    var start, size := input.pos, |input.buffer| - input.pos;
    if size > 0 {
      var each := tagSize + kind.width;
      var reserved := values.elements.Length - values.currentSize;
      var available := Available(reserved, size, each);
      var numRead := ReadDirect(input.buffer, start, tag, kind, available, values);
      PlainReadFits(input.buffer, start, tag, kind, numRead);
      var taken := numRead * each;
      if taken > 0 {
        var skipped := input.Skip(taken);
      }
      DropTwice(input.buffer, start, taken);
    }
  }

  /**
   ReadRepeatedFixedSizePrimitive. After the first element it reads only as many more as fit the
   reserved slots and the bytes at hold, so neither the field nor the stream is checked again.
   */
  method ReadRepeatedFixedSizePrimitive(tagSize: nat, tag: uint32, kind: Primitive, input: CodedInputStream, values: RepeatedField<int>)
    returns (ok: bool)
    requires input.Valid() && values.Valid()
    requires tagSize == |EncodeVarint(tag)| && kind.Fixed()
    modifies input`pos, values, values.elements
    ensures input.Valid() && values.Valid()
    ensures ok == (|old(input.Rest())| >= kind.width)
    ensures !ok ==> values.Contents() == old(values.Contents()) && input.pos == old(input.pos)
    // what was read is what as many rounds of the plain loop read, and no slot was added for it
    ensures ok ==>
      var was := old(values.Contents());
      var n := |values.Contents()| - |was| - 1;
      && n >= 0
      && old(input.pos) + kind.width <= input.pos <= |input.buffer|
      && PlainRead(input.buffer[old(input.pos) + kind.width..], tag, kind, n) ==
         Elements(values.Contents()[|was| + 1..], input.pos - old(input.pos) - kind.width)
      && values.Contents()[..|was| + 1] == was + [Convert(kind, DecodeLE(input.buffer[old(input.pos)..old(input.pos) + kind.width]))]
      && values.Spent().total == Growth.AddCost(old(values.Spent())).total
      // and it stops only for lack of slots, of bytes, or of the tag
      && StopsBulk(input.buffer[old(input.pos) + kind.width..], tag, kind, values.Spent().total - |was| - 1, n)
  {
    hide ExpectTag, PlainRead, EncodeVarint, DecodeLE, Convert, Growth.AddCost, StopsBulk;
    var value := input.ReadLittleEndian(kind.width);
    if value == None { return false; }
    TakeOfDrop(input.buffer, old(input.pos), kind.width);
    values.Add(Convert(kind, value.value));
    ReadMore(tagSize, tag, kind, input, values);
    ok := true;
  }

  lemma TakeOfDrop(s: Bytes, at: nat, width: nat)
    requires at + width <= |s|
    ensures s[at..][..width] == s[at..at + width]
  {
  }

  /** How two loops that may each stop early compare: the reads they agree on are those of the longer one. */
  lemma ReadsOn(s: Bytes, tag: uint32, kind: Primitive, n: nat, m: nat)
    requires n < m && PlainRead(s, tag, kind, n).Elements? && PlainRead(s, tag, kind, m).Elements?
    ensures Round(s[PlainRead(s, tag, kind, n).size..], tag, kind).Element?
  {
    hide Round, PlainRead;
    PlainReadInPieces(s, tag, kind, n, m - n);
    PlainReadUnfolds(s[PlainRead(s, tag, kind, n).size..], tag, kind, m - n);
  }

  /** Both read the same elements of a fixed-size type and stop at the same place. */
  lemma BulkReadsTheSame(s: Bytes, tag: uint32, kind: Primitive, slots: nat, n: nat, m: nat)
    requires kind.Fixed() && StopsPlain(s, tag, kind, slots, n) && StopsBulk(s, tag, kind, slots, m)
    ensures n == m
  {
    hide PlainRead;
    if n < m {
      ReadsOn(s, tag, kind, n, m);
    } else if m < n {
      ReadsOn(s, tag, kind, m, n);
      TagLength(s[PlainRead(s, tag, kind, m).size..], tag);
    }
  }

  lemma TagLength(s: Bytes, tag: uint32)
    ensures ExpectTag(s, tag).Some? ==> ExpectTag(s, tag).value == |EncodeVarint(tag)| <= |s|
  {
  }

  method ReadPrimitive(kind: Primitive, input: CodedInputStream) returns (r: Option<int>)
    requires input.Valid()
    modifies input`pos
    ensures input.Valid()
    ensures match NextPrimitive(old(input.Rest()), kind)
            case NoElement => r == None && input.pos == old(input.pos)
            case Element(v, n) => r == Some(v) && input.Rest() == old(input.Rest())[n..]
  {
    hide Convert;
    ghost var start := input.pos;
    var word: Option<nat> := None;
    if kind.FixedWord? || kind.SignedWord? {
      word := input.ReadLittleEndian(kind.width);
    } else if kind.Long() {
      var v := input.ReadVarint64();
      if v.Some? { word := Some(v.value); }
    } else {
      var v := input.ReadVarint32();
      if v.Some? { word := Some(v.value); }
    }
    r := if word.Some? then Some(Convert(kind, word.value)) else None;
    DropTwice(input.buffer, start, input.pos - start);
  }

  method MatchTag(tag: uint32, input: CodedInputStream) returns (b: bool)
    requires input.Valid()
    modifies input`pos
    ensures input.Valid() && b == ExpectTag(old(input.Rest()), tag).Some?
    ensures |EncodeVarint(tag)| <= |old(input.Rest())| || !b
    ensures input.Rest() == if b then old(input.Rest())[|EncodeVarint(tag)|..] else old(input.Rest())
  {
    ExpectTagIffCanonical(input.Rest(), tag);
    TagLength(input.Rest(), tag);
    hide ExpectTag, EncodeVarint;
    b := input.ExpectTag(tag);
  }

  /** One round: the tag, if it is next, and a value behind it */
  method ReadOneMore(tag: uint32, kind: Primitive, input: CodedInputStream, values: RepeatedField<int>)
    returns (matches: bool, ok: bool, ghost r: Element)
    requires input.Valid() && values.Valid() && values.currentSize < values.elements.Length
    modifies input`pos, values`currentSize, values.elements
    ensures input.Valid() && values.Valid()
    ensures r == Round(old(input.Rest()), tag, kind)
    ensures matches == ExpectTag(old(input.Rest()), tag).Some? && ok == r.Element?
    ensures r.Element? ==> values.Contents() == old(values.Contents()) + [r.value] && input.Rest() == old(input.Rest())[r.size..]
    ensures r.NoElement? ==> values.Contents() == old(values.Contents())
    ensures !matches ==> r.NoElement? && input.Rest() == old(input.Rest())
    ensures values.currentSize == old(values.currentSize) + if ok then 1 else 0
    ensures ValueIsMissing(old(input.Rest()), tag, kind) <==> matches && !ok
  {
    hide ExpectTag, NextPrimitive, Round, EncodeVarint;
    ghost var s := input.Rest();
    r := Round(s, tag, kind);
    RoundBehindTag(s, tag, kind);
    matches := MatchTag(tag, input);
    if !matches { return false, false, r; }
    ghost var rest := input.Rest();
    var value := ReadPrimitive(kind, input);
    if value == None { return true, false, r; }
    DropTwice(s, |EncodeVarint(tag)|, NextPrimitive(rest, kind).size);
    values.AddAlreadyReserved(value.value);
    ok := true;
  }

  /** The loop behind the first element */
  method ReadMorePrimitives(tag: uint32, kind: Primitive, input: CodedInputStream, values: RepeatedField<int>)
    returns (ok: bool, ghost more: Elements)
    requires input.Valid() && values.Valid()
    modifies input`pos, values`currentSize, values.elements
    ensures input.Valid() && values.Valid()
    ensures more.Elements? && more == PlainRead(old(input.Rest()), tag, kind, |more.values|)
    ensures StopsPlain(old(input.Rest()), tag, kind, old(values.elements.Length - values.currentSize), |more.values|)
    ensures values.Contents() == old(values.Contents()) + more.values
    ensures ok ==> input.Rest() == old(input.Rest())[more.size..]
    ensures var rest := old(input.Rest())[more.size..];
            !ok <==> |more.values| < old(values.elements.Length - values.currentSize) && ValueIsMissing(rest, tag, kind)
  {
    hide ExpectTag, PlainRead, NextPrimitive, Round, ValueIsMissing, StopsPlain;
    ghost var s, was := input.Rest(), values.Contents();
    PlainReadNothing(s, tag, kind);
    more := Elements([], 0);
    var elementsAlreadyReserved := values.elements.Length - values.currentSize;
    while elementsAlreadyReserved > 0
      invariant input.Valid() && values.Valid() && more.Elements?
      invariant more == PlainRead(s, tag, kind, |more.values|) && input.Rest() == s[more.size..]
      invariant values.Contents() == was + more.values
      invariant elementsAlreadyReserved == values.elements.Length - values.currentSize
    {
      ghost var r;
      var matches;
      matches, ok, r := ReadOneMore(tag, kind, input, values);
      if !ok { Stops(s, tag, kind, |more.values| + elementsAlreadyReserved, |more.values|); }
      if !matches { return true, more; }
      if !ok { return false, more; }
      PlainReadOneMore(s, tag, kind, |more.values|);
      DropTwice(s, more.size, r.size);
      more := Elements(more.values + [r.value], more.size + r.size);
      elementsAlreadyReserved := elementsAlreadyReserved - 1;
    }
    Stops(s, tag, kind, |more.values|, |more.values|);
    ok := true;
  }

  lemma Stops(s: Bytes, tag: uint32, kind: Primitive, slots: nat, n: nat)
    requires n <= slots && PlainRead(s, tag, kind, n).Elements?
    requires n == slots || Round(s[PlainRead(s, tag, kind, n).size..], tag, kind).NoElement?
    ensures StopsPlain(s, tag, kind, slots, n)
  {
  }

  lemma RoundBehindTag(s: Bytes, tag: uint32, kind: Primitive)
    ensures var t := |EncodeVarint(tag)|;
            (ExpectTag(s, tag).Some? ==> t <= |s|) &&
            Round(s, tag, kind) ==
            if ExpectTag(s, tag) == None || NextPrimitive(s[t..], kind).NoElement? then NoElement
            else Element(NextPrimitive(s[t..], kind).value, t + NextPrimitive(s[t..], kind).size)
  {
  }

  /**
   ReadRepeatedPrimitive: an element, and as many more as there are slots reserved and tags that
   match; it answers false when no value follows a tag that matched.
   */
  method ReadRepeatedPrimitive(tag: uint32, kind: Primitive, input: CodedInputStream, values: RepeatedField<int>)
    returns (ok: bool, ghost first: Element, ghost more: Elements)
    requires input.Valid() && values.Valid()
    modifies input`pos, values, values.elements
    ensures input.Valid() && values.Valid()
    ensures first == NextPrimitive(old(input.Rest()), kind)
    ensures first.NoElement? ==> !ok && values.Contents() == old(values.Contents()) && input.pos == old(input.pos)
    ensures first.Element? ==>
      var s := old(input.Rest())[first.size..];
      && more.Elements? && more == PlainRead(s, tag, kind, |more.values|)
      && values.Contents() == old(values.Contents()) + [first.value] + more.values
      && values.Spent().total == Growth.AddCost(old(values.Spent())).total
      && StopsPlain(s, tag, kind, values.Spent().total - old(values.currentSize) - 1, |more.values|)
      && (ok ==> input.Rest() == s[more.size..])
      && (!ok <==> values.currentSize < values.Spent().total && ValueIsMissing(s[more.size..], tag, kind))
  {
    hide ExpectTag, PlainRead, NextPrimitive, Growth.AddCost;
    first, more := NextPrimitive(input.Rest(), kind), NoElements;
    ghost var start := input.pos;
    var value := ReadPrimitive(kind, input);
    if value == None { return false, first, more; }
    values.Add(value.value);
    ok, more := ReadMorePrimitives(tag, kind, input, values);
  }
}
