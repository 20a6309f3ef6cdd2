/**
 The generated class ChatNotify of packet.pb.cc: accessors on pointers and has-bits, the parser with
 its peeking shortcuts, the array serialiser and ByteSize, each proved against Messages and
 MessageStrings.
 */
module PacketMessages {
  import opened Bytes
  import opened Varint
  import opened WireFormat
  import opened CodedStream
  import opened UnknownFields
  import opened Messages
  import opened Store
  import MS = MessageStrings
  import Sharing = MessageSharing

  const LOGIN_REQUEST_NAME: fieldnum := 1
  const LOGIN_RESPONSE_SUCCESS: fieldnum := 2
  const CHAT_REQUEST_MESSAGE: fieldnum := 3
  const NOTIFY_NAME: fieldnum := 4
  const NOTIFY_MESSAGE: fieldnum := 5

  const NOTIFY_SCHEMA: Schema := map[NOTIFY_NAME := StringKind, NOTIFY_MESSAGE := StringKind]
  const NOTIFY_ORDER: seq<fieldnum> := [NOTIFY_NAME, NOTIFY_MESSAGE]

  /** MakeTag(4, WIRETYPE_LENGTH_DELIMITED) and MakeTag(5, WIRETYPE_LENGTH_DELIMITED) */
  const NAME_TAG: uint32 := 34
  const MESSAGE_TAG: uint32 := 42

  // ---- has-bits ---------------------------------------------------------------------------------

  predicate Has(bits: bv32, mask: bv32) { bits & mask != 0 }

  function SetHas(bits: bv32, mask: bv32): bv32 { bits | mask }

  function ClearHas(bits: bv32, mask: bv32): bv32 { bits & !mask }

  lemma SetBits(bits: bv32)
    ensures Has(SetHas(bits, 1), 1) && Has(SetHas(bits, 1), 2) == Has(bits, 2)
    ensures Has(SetHas(bits, 2), 2) && Has(SetHas(bits, 2), 1) == Has(bits, 1)
  {
  }

  lemma ClearBits(bits: bv32)
    ensures !Has(ClearHas(bits, 1), 1) && Has(ClearHas(bits, 1), 2) == Has(bits, 2)
    ensures !Has(ClearHas(bits, 2), 2) && Has(ClearHas(bits, 2), 1) == Has(bits, 1)
  {
    hide Has, ClearHas;
    ClearFirst(bits);
    ClearSecond(bits);
  }

  lemma ClearFirst(bits: bv32)
    ensures !Has(ClearHas(bits, 1), 1) && Has(ClearHas(bits, 1), 2) == Has(bits, 2)
  {
  }

  lemma ClearSecond(bits: bv32)
    ensures !Has(ClearHas(bits, 2), 2) && Has(ClearHas(bits, 2), 1) == Has(bits, 1)
  {
  }

  lemma NoBits(bits: bv32)
    requires bits & 0xff == 0
    ensures !Has(bits, 1) && !Has(bits, 2)
  {
  }

  lemma BothBits(bits: bv32)
    ensures bits & 3 == 3 <==> Has(bits, 1) && Has(bits, 2)
  {
  }

  // ---- parts shared by the generated code ----------------------------------------------------------

  function KnownText(number: fieldnum, field: Option<Bytes>): map<fieldnum, FieldValue> {
    match field
    case None => map[]
    case Some(text) => map[number := Text(text)]
  }

  /** The first half of set_name and mutable_name: a string of the field's own */
  method OwnString(memory: Memory<Bytes>, p: Ptr) returns (q: Ptr)
    modifies memory
    ensures if p == EMPTY_STRING then q == old(memory.h.next) && memory.h == old(memory.h).New()
            else q == p && memory.h == old(memory.h)
  {
    q := p;
    if p == EMPTY_STRING {
      q := memory.New();
    }
  }

  method WriteStringToArray(number: fieldnum, value: Bytes, target: array<byte>, at: nat) returns (end: nat)
    requires |value| < TWO_31 && at + |SerializeValue(number, Text(value))| <= target.Length
    modifies target
    ensures end == at + |SerializeValue(number, Text(value))|
    ensures target[..] == Patch(old(target[..]), at, SerializeValue(number, Text(value)))
  {
    hide Patch, EncodeVarint;
    var tag := MakeTag(number, WIRETYPE_LENGTH_DELIMITED);
    ghost var was := target[..];
    ghost var head, length := EncodeVarint(tag), EncodeVarint(|value|);
    end := WriteTagToArray(tag, target, at);
    end := WriteVarint32ToArray(|value|, target, end);
    PatchTwice(was, at, head, length);
    end := WriteRawToArray(value, target, end);
    PatchTwice(was, at, head + length, value);
    Regroup(head, length, value);
  }

  method SkipUnknown(input: CodedInputStream, tag: uint32) returns (r: FieldRead)
    requires input.Valid()
    modifies input`pos
    ensures input.Valid()
    ensures r == SkipField(old(input.Rest()), tag, RECURSION_LIMIT)
    ensures input.pos == old(input.pos) + if r.FieldRead? then r.size else 0
    ensures input.Moved(old(input.pos))
  {
    r := SkipField(input.buffer[input.pos..], tag, RECURSION_LIMIT);
    if r.FieldRead? {
      input.pos := input.pos + r.size;
    }
  }

  // ---- one round of the plain parser ---------------------------------------------------------------

  lemma MergeGoesOn(schema: Schema, s: Bytes, m: Message, value: Bytes)
    requires NextTag(s).tag != 0 && value == s[NextTag(s).size..]
    ensures var t := NextTag(s);
            Merge(schema, s, m) ==
            match MergeField(schema, value, t.tag, m)
            case Done(ok, m') => Outcome(ok, m', t.size, t.tag, false)
            case Next(m', n) => Merge(schema, value[n..], m').After(t.size + n)
  {
  }

  lemma MergeFieldKnown(schema: Schema, s: Bytes, tag: uint32, m: Message)
    requires Defines(schema, GetTagFieldNumber(tag), GetTagWireType(tag))
    ensures var number := GetTagFieldNumber(tag);
            var r := ReadValue(s, schema[number]);
            MergeField(schema, s, tag, m) ==
            if r.NoValue? then Done(false, Touched(m, number, schema[number]))
            else Next(m.(known := m.known[number := r.value]), r.size)
  {
  }

  lemma MergeFieldForeign(schema: Schema, s: Bytes, tag: uint32, m: Message)
    requires !Defines(schema, GetTagFieldNumber(tag), GetTagWireType(tag))
    ensures MergeField(schema, s, tag, m) ==
            if GetTagWireType(tag) == WIRETYPE_END_GROUP then Done(true, m)
            else
              var f := SkipField(s, tag, RECURSION_LIMIT);
              if f.NoField? then Done(false, m) else Next(m.(unknown := m.unknown + [f.field]), f.size)
  {
  }

  /**
   The parse of a ChatNotify fails on a message string whose one-byte tag follows a name: the one case
   in which the tag was consumed by ExpectTag and the last tag still is the name's.
   */
  predicate FailsPastPeek(s: Bytes, previous: uint32)
    decreases |s|
  {
    var t := NextTag(s);
    t.tag != 0 &&
    var value := s[t.size..];
    if t.tag == MESSAGE_TAG && previous == NAME_TAG && s[0] == MESSAGE_TAG && NextString(value) == None then true
    else
      match MergeField(NOTIFY_SCHEMA, value, t.tag, EMPTY)
      case Done(_, _) => false
      case Next(_, n) => FailsPastPeek(value[n..], t.tag)
  }

  /** In that case the plain parser fails too, with the message's tag as its last: the two last tags differ exactly then. */
  lemma {:induction false} FailsPastPeekFails(s: Bytes, m: Message, previous: uint32)
    requires FailsPastPeek(s, previous)
    ensures !Merge(NOTIFY_SCHEMA, s, m).ok && Merge(NOTIFY_SCHEMA, s, m).lastTag == MESSAGE_TAG
    decreases |s|
  {
    hide NextTag, NextString, MergeField;
    var t := NextTag(s);
    var value := s[t.size..];
    MergeGoesOn(NOTIFY_SCHEMA, s, m, value);
    if t.tag == MESSAGE_TAG && previous == NAME_TAG && s[0] == MESSAGE_TAG && NextString(value) == None {
      MergeFieldKnown(NOTIFY_SCHEMA, value, t.tag, m);
    } else {
      SameSize(value, t.tag, m);
      var step := MergeField(NOTIFY_SCHEMA, value, t.tag, m);
      FailsPastPeekFails(value[step.size..], step.msg, t.tag);
    }
  }

  /** How far a field reaches does not depend on the message it is merged into. */
  lemma SameSize(s: Bytes, tag: uint32, m: Message)
    ensures var a, b := MergeField(NOTIFY_SCHEMA, s, tag, EMPTY), MergeField(NOTIFY_SCHEMA, s, tag, m);
            a.Next? == b.Next? && (a.Next? ==> a.size == b.size)
  {
  }

  /** A name, and a message whose five bytes are missing: the shortcut leaves the name's tag as the last one. */
  lemma PeekWitness()
    ensures FailsPastPeek([34, 0, 42, 5], 0)
  {
    var rest: Bytes := [42, 5];
    assert [34, 0, 42, 5][1..] == [0, 42, 5] && [0, 42, 5][1..] == rest;
    assert ReadVarint32([0, 42, 5]) == Some((0, 1)) && [0, 42, 5][1..1] == [];
    assert NextString([0, 42, 5]) == Some(([], 1));
    assert MergeField(NOTIFY_SCHEMA, [0, 42, 5], NAME_TAG, EMPTY).size == 1;
    assert rest[1..] == [5] && NextString([5]) == None;
    assert FailsPastPeek(rest, NAME_TAG);
  }

  /** What the plain parser gives, but for the last tag in that one case */
  function Expected(s: Bytes, m: Message, previous: uint32): Outcome {
    var r := Merge(NOTIFY_SCHEMA, s, m);
    if FailsPastPeek(s, previous) then r.(lastTag := NAME_TAG) else r
  }

  /** A field of kind string, read or not */
  lemma NotifyString(s: Bytes, m: Message, previous: uint32, value: Bytes)
    requires var t := NextTag(s); t.tag != 0 && (t.tag == NAME_TAG || t.tag == MESSAGE_TAG) && value == s[t.size..]
    ensures var t := NextTag(s);
            var number := if t.tag == NAME_TAG then NOTIFY_NAME else NOTIFY_MESSAGE;
            var r := NextString(value);
            Expected(s, m, previous) ==
            if r == None then
              var peeked := t.tag == MESSAGE_TAG && previous == NAME_TAG && s[0] == MESSAGE_TAG;
              Outcome(false, Touched(m, number, StringKind), t.size, if peeked then NAME_TAG else t.tag, false)
            else
              var (text, n) := r.value;
              Expected(value[n..], m.(known := m.known[number := Text(text)]), t.tag).After(t.size + n)
  {
    hide NextTag, NextString, MergeField;
    MergeGoesOn(NOTIFY_SCHEMA, s, m, value);
    MergeFieldKnown(NOTIFY_SCHEMA, value, NextTag(s).tag, m);
    MergeFieldKnown(NOTIFY_SCHEMA, value, NextTag(s).tag, EMPTY);
  }

  /** A field of another number or wire type */
  lemma NotifyForeign(s: Bytes, m: Message, previous: uint32, value: Bytes)
    requires var t := NextTag(s); t.tag != 0 && t.tag != NAME_TAG && t.tag != MESSAGE_TAG && value == s[t.size..]
    ensures var t := NextTag(s);
            var f := SkipField(value, t.tag, RECURSION_LIMIT);
            Expected(s, m, previous) ==
            if GetTagWireType(t.tag) == WIRETYPE_END_GROUP then Outcome(true, m, t.size, t.tag, false)
            else if f.NoField? then Outcome(false, m, t.size, t.tag, false)
            else Expected(value[f.size..], m.(unknown := m.unknown + [f.field]), t.tag).After(t.size + f.size)
  {
    hide NextTag, NextString, MergeField, SkipField;
    MergeGoesOn(NOTIFY_SCHEMA, s, m, value);
    MergeFieldForeign(NOTIFY_SCHEMA, value, NextTag(s).tag, m);
    MergeFieldForeign(NOTIFY_SCHEMA, value, NextTag(s).tag, EMPTY);
  }

  /** A moment in a parse: unread bytes, message so far, the tag before, position, last tag and end flag. */
  datatype Parse = Parse(s: Bytes, m: Message, previous: uint32, at: nat, lastTag: uint32, atEnd: bool)

  /** The parse at one moment comes down to the parse at a later one. */
  ghost predicate LeadsTo(from: Parse, to: Parse) {
    && from.at <= to.at && to.atEnd == from.atEnd
    && Expected(from.s, from.m, from.previous) == Expected(to.s, to.m, to.previous).After(to.at - from.at)
  }

  /** The parse ends with this answer, and in this state. */
  ghost predicate EndsIn(from: Parse, to: Parse, ok: bool) {
    var r := Expected(from.s, from.m, from.previous);
    && r.ok == ok && r.msg == to.m && from.at + r.size == to.at && r.lastTag == to.lastTag
    && to.atEnd == (from.atEnd || r.atEnd)
  }

  lemma LeadsOn(a: Parse, b: Parse, c: Parse)
    requires LeadsTo(a, b) && LeadsTo(b, c)
    ensures LeadsTo(a, c)
  {
    hide Expected;
  }

  lemma LeadsToEnd(a: Parse, b: Parse, c: Parse, ok: bool)
    requires LeadsTo(a, b) && EndsIn(b, c, ok)
    ensures EndsIn(a, c, ok)
  {
    hide Expected;
  }

  lemma LeadsToItself(a: Parse)
    ensures LeadsTo(a, a)
  {
  }

  /** A moment behind the tag at the front of s */
  ghost predicate BehindTag(from: Parse, now: Parse, tag: uint32) {
    var t := NextTag(from.s);
    && t.tag == tag != 0 && now.at == from.at + t.size && now.s == from.s[t.size..]
    && now.m == from.m && now.atEnd == from.atEnd
  }

  // ---- ChatNotify ---------------------------------------------------------------------------------

  /** The two fields and the unknown ones as a message value */
  ghost function NotifyValue(fields: seq<Option<Bytes>>, unknown: seq<UnknownField>): Message
    requires |fields| == 2
  {
    Message(KnownText(NOTIFY_NAME, fields[0]) + KnownText(NOTIFY_MESSAGE, fields[1]), unknown)
  }

  lemma NotifyValueSet(fields: seq<Option<Bytes>>, unknown: seq<UnknownField>, i: nat, text: Bytes)
    requires |fields| == 2 && i < 2
    ensures var number := if i == 0 then NOTIFY_NAME else NOTIFY_MESSAGE;
            var m := NotifyValue(fields, unknown);
            && NotifyValue(fields[i := Some(text)], unknown) == m.(known := m.known[number := Text(text)])
            && (number in m.known <==> fields[i].Some?)
  {
  }

  class ChatNotify {
    const memory: Memory<Bytes>
    var name: Ptr
    var message: Ptr
    var hasBits: bv32
    var unknown: seq<UnknownField>
    var cachedSize: nat

    ghost function View(): MS.State
      reads this, memory
    {
      MS.State([MS.Slot(name, Has(hasBits, 1)), MS.Slot(message, Has(hasBits, 2))], memory.h)
    }

    ghost predicate Valid()
      reads this, memory
    {
      Sharing.Sound(View())
    }

    /** The message as a value */
    ghost function Value(): Message
      reads this, memory
    {
      NotifyValue(MS.Fields(View()), unknown)
    }

    constructor (memory: Memory<Bytes>)
      ensures this.memory == memory && View() == MS.State([MS.Slot(EMPTY_STRING, false), MS.Slot(EMPTY_STRING, false)], memory.h)
      ensures Value() == EMPTY
    {
      this.memory := memory;
      name, message, hasBits, unknown, cachedSize := EMPTY_STRING, EMPTY_STRING, 0, [], 0;
      new;
      NoBits(0);
    }

    method MutableName() returns (p: Ptr)
      modifies this`name, this`hasBits, memory
      ensures View() == MS.Mutable(old(View()), 0) && p == name
    {
      hide Has, SetHas;
      SetBits(hasBits);
      hasBits := SetHas(hasBits, 1);
      name := OwnString(memory, name);
      p := name;
    }

    method MutableMessage() returns (p: Ptr)
      modifies this`message, this`hasBits, memory
      ensures View() == MS.Mutable(old(View()), 1) && p == message
    {
      hide Has, SetHas;
      SetBits(hasBits);
      hasBits := SetHas(hasBits, 2);
      message := OwnString(memory, message);
      p := message;
    }

    method SetName(value: Bytes)
      requires Valid()
      modifies this`name, this`hasBits, memory
      ensures Valid() && View() == MS.Set(old(View()), 0, value)
    {
      hide Sharing.Sound;
      MutableKeeps(View(), 0);
      Sharing.StepKeepsSound(View(), MS.OpSet(0, value));
      var p := MutableName();
      memory.Assign(p, value);
    }

    method SetMessage(value: Bytes)
      requires Valid()
      modifies this`message, this`hasBits, memory
      ensures Valid() && View() == MS.Set(old(View()), 1, value)
    {
      hide Sharing.Sound;
      MutableKeeps(View(), 1);
      Sharing.StepKeepsSound(View(), MS.OpSet(1, value));
      var p := MutableMessage();
      memory.Assign(p, value);
    }

    method ClearName()
      requires Valid()
      modifies this`hasBits, memory
      ensures Valid() && View() == MS.ClearField(old(View()), 0)
    {
      hide Has, SetHas, ClearHas, Sharing.Sound;
      Unique();
      Sharing.StepKeepsSound(View(), MS.OpClearField(0));
      ClearBits(hasBits);
      if name != EMPTY_STRING {
        memory.Assign(name, []);
      }
      hasBits := ClearHas(hasBits, 1);
      assert View().slots == MS.ClearField(old(View()), 0).slots;
    }

    method ClearMessageField()
      requires Valid()
      modifies this`hasBits, memory
      ensures Valid() && View() == MS.ClearField(old(View()), 1)
    {
      hide Has, SetHas, ClearHas, Sharing.Sound;
      Unique();
      Sharing.StepKeepsSound(View(), MS.OpClearField(1));
      ClearBits(hasBits);
      if message != EMPTY_STRING {
        memory.Assign(message, []);
      }
      hasBits := ClearHas(hasBits, 2);
      assert View().slots == MS.ClearField(old(View()), 1).slots;
    }

    method ReleaseName() returns (result: Option<Ptr>)
      requires Valid()
      modifies this`name, this`hasBits, memory
      ensures Valid() && View() == MS.Release(old(View()), 0)
      ensures result == if old(name) == EMPTY_STRING then None else Some(old(name))
    {
      hide Has, SetHas, ClearHas, Sharing.Sound;
      Sharing.StepKeepsSound(View(), MS.OpRelease(0));
      ClearBits(hasBits);
      hasBits := ClearHas(hasBits, 1);
      if name == EMPTY_STRING {
        result := None;
      } else {
        result, name := Some(name), EMPTY_STRING;
        memory.h := memory.h.Give(result.value);
      }
      assert View().slots == MS.Release(old(View()), 0).slots;
    }

    method SetAllocatedName(value: Option<Ptr>)
      requires Valid() && (value.Some? ==> value.value in memory.h.callerOwned)
      modifies this`name, this`hasBits, memory
      ensures Valid() && View() == MS.SetAllocated(old(View()), 0, value)
    {
      hide Has, SetHas, ClearHas, Sharing.Sound;
      Unique();
      Sharing.StepKeepsSound(View(), MS.OpSetAllocated(0, value));
      SetBits(hasBits);
      ClearBits(hasBits);
      if name != EMPTY_STRING {
        memory.Delete(name);
      }
      if value.Some? {
        hasBits, name := SetHas(hasBits, 1), value.value;
        memory.h := memory.h.Take(value.value);
      } else {
        hasBits, name := ClearHas(hasBits, 1), EMPTY_STRING;
      }
      assert View().slots == MS.SetAllocated(old(View()), 0, value).slots;
    }

    lemma Unique()
      requires Valid()
      ensures name != EMPTY_STRING ==> memory.h.Live(name)
      ensures message != EMPTY_STRING ==> memory.h.Live(message)
      ensures name != EMPTY_STRING ==> name != message
    {
      hide Has, Sharing.Sound;
      Sharing.SoundSlots(View());
      assert View().slots[0].ptr == name && View().slots[1].ptr == message;
    }

    /** Skips the strings of fields that are not set. */
    method Clear()
      requires Valid()
      modifies this`hasBits, this`unknown, memory
      ensures Valid() && View() == MS.ClearMessage(old(View()), 0, 2) && Value() == EMPTY
      ensures MS.Get(View(), 0) == [] && MS.Get(View(), 1) == []
    {
      hide Has, Sharing.Sound, Conserved;
      ghost var s := View();
      Unique();
      Sharing.StepKeepsSound(s, MS.OpClearMessage(0, 2));
      UnsetReadsEmpty(MS.ClearMessage(s, 0, 2));
      MS.ClearTwo(s);
      if hasBits & 0xff != 0 {
        if Has(hasBits, 1) {
          if name != EMPTY_STRING { memory.Assign(name, []); }
        }
        if Has(hasBits, 2) {
          if message != EMPTY_STRING { memory.Assign(message, []); }
        }
      } else {
        NoBits(hasBits);
      }
      hasBits, unknown := 0, [];
      NoBits(0);
    }

    static lemma UnsetReadsEmpty(s: MS.State)
      requires Sharing.Sound(s)
      ensures forall i | 0 <= i < |s.slots| && !s.slots[i].has :: MS.Get(s, i) == []
    {
      hide Conserved;
      assert forall i | 0 <= i < |s.slots| :: MS.Get(Sharing.Crowd(s, Sharing.Elsewhere(s)), i) == MS.Get(s, i);
    }

    /** mutable_name() and mutable_message() yield a live string of the message's own. */
    static lemma MutableKeeps(s: MS.State, i: nat)
      requires Sharing.Sound(s) && i < |s.slots|
      ensures Sharing.Sound(MS.Mutable(s, i)) && MS.Mutable(s, i).h.Live(MS.Mutable(s, i).slots[i].ptr)
      ensures MS.Fields(MS.Mutable(s, i)) == MS.OnFields(MS.Fields(s), MS.OpMutable(i), s.h)
    {
      Sharing.StepKeepsSound(s, MS.OpMutable(i));
      var crowd := Sharing.Crowd(s, Sharing.Elsewhere(s));
      MS.MutableKeeps(crowd, i);
    }

    /** SharedDtor: what lives afterwards is what lived outside the message. */
    method Destroy()
      requires Valid()
      modifies memory
      ensures Held([], memory.h) && Beyond([], memory.h) == old(Sharing.Elsewhere(View()))
      ensures memory.h.callerOwned == old(memory.h.callerOwned) && memory.h.empty == old(memory.h.empty)
      ensures memory.h == MS.Destroy(MS.Destroy(old(View()), 0), 1).h
    {
      hide Has, Sharing.Sound, Held, Beyond, Sharing.Elsewhere;
      Unique();
      DestroyTwo(View());
      if name != EMPTY_STRING { memory.Delete(name); }
      if message != EMPTY_STRING { memory.Delete(message); }
    }

    static lemma DestroyTwo(s: MS.State)
      requires Sharing.Sound(s) && |s.slots| == 2
      ensures var h := MS.Destroy(MS.Destroy(s, 0), 1).h; Held([], h) && Beyond([], h) == Sharing.Elsewhere(s)
    {
      hide Conserved, Beyond;
      Sharing.StepKeepsSound(s, MS.OpSetAllocated(0, None));
      var s1 := MS.Destroy(s, 0);
      Sharing.StepKeepsSound(s1, MS.OpSetAllocated(1, None));
      MS.FreshOwnsNothing(MS.Destroy(s1, 1).slots);
    }

    // ---- parsing ---------------------------------------------------------------------------------

    /** mutable_name() and ReadString onto it */
    method ReadName(input: CodedInputStream) returns (ok: bool)
      requires Valid() && input.Valid()
      modifies this`name, this`hasBits, memory, input`pos
      ensures Valid() && input.Valid()
      ensures match NextString(old(input.Rest()))
              case None => !ok && input.pos == old(input.pos) && Value() == Touched(old(Value()), NOTIFY_NAME, StringKind)
              case Some((text, n)) =>
                && ok && input.pos == old(input.pos) + n
                && Value() == old(Value()).(known := old(Value()).known[NOTIFY_NAME := Text(text)])
      ensures input.Moved(old(input.pos))
    {
      hide Has, SetHas, Sharing.Sound, MS.Mutable, MS.Write, MS.Field, NextString, NotifyValue;
      ghost var s := View();
      MutableKeeps(s, 0);
      var p := MutableName();
      var text := input.ReadString();
      ok := text.Some?;
      if ok {
        Sharing.StepKeepsSound(s, MS.OpSet(0, text.value));
        NotifyValueSet(MS.Fields(s), unknown, 0, text.value);
        WriteIs(View(), 0, text.value);
        memory.Assign(p, text.value);
      } else {
        NotifyValueSet(MS.Fields(s), unknown, 0, []);
      }
    }

    /** mutable_message() and ReadString onto it */
    method ReadMessage(input: CodedInputStream) returns (ok: bool)
      requires Valid() && input.Valid()
      modifies this`message, this`hasBits, memory, input`pos
      ensures Valid() && input.Valid()
      ensures match NextString(old(input.Rest()))
              case None => !ok && input.pos == old(input.pos) && Value() == Touched(old(Value()), NOTIFY_MESSAGE, StringKind)
              case Some((text, n)) =>
                && ok && input.pos == old(input.pos) + n
                && Value() == old(Value()).(known := old(Value()).known[NOTIFY_MESSAGE := Text(text)])
      ensures input.Moved(old(input.pos))
    {
      hide Has, SetHas, Sharing.Sound, MS.Mutable, MS.Write, MS.Field, NextString, NotifyValue;
      ghost var s := View();
      MutableKeeps(s, 1);
      var p := MutableMessage();
      var text := input.ReadString();
      ok := text.Some?;
      if ok {
        Sharing.StepKeepsSound(s, MS.OpSet(1, text.value));
        NotifyValueSet(MS.Fields(s), unknown, 1, text.value);
        WriteIs(View(), 1, text.value);
        memory.Assign(p, text.value);
      } else {
        NotifyValueSet(MS.Fields(s), unknown, 1, []);
      }
    }

    /** This moment */
    ghost function Now(input: CodedInputStream, previous: uint32): Parse
      requires input.Valid()
      reads this, memory, input
    {
      Parse(input.Rest(), Value(), previous, input.pos, input.lastTag, input.legitimateMessageEnd)
    }

    /** The case of a field that the message type does not define */
    method ForeignField(input: CodedInputStream, tag: uint32, ghost from: Parse) returns (done: bool, ok: bool)
      requires Valid() && input.Valid() && tag != NAME_TAG && tag != MESSAGE_TAG
      requires BehindTag(from, Now(input, 0), tag) && input.lastTag == tag
      modifies this`unknown, input`pos
      ensures Valid() && input.Valid()
      ensures if done then EndsIn(from, Now(input, 0), ok) else LeadsTo(from, Now(input, tag)) && input.pos > old(input.pos)
    {
      hide Has, Sharing.Sound, SkipField, Expected, GetTagWireType, NextTag;
      NotifyForeign(from.s, from.m, from.previous, input.Rest());
      if GetTagWireType(tag) == WIRETYPE_END_GROUP { return true, true; }
      var r := SkipUnknown(input, tag);
      if r.NoField? { return true, false; }
      unknown := unknown + [r.field];
      return false, true;
    }

    /** The case of the name, up to the look at what follows it */
    method NameField(input: CodedInputStream, ghost from: Parse) returns (ok: bool)
      requires Valid() && input.Valid()
      requires BehindTag(from, Now(input, 0), NAME_TAG) && input.lastTag == NAME_TAG
      modifies this`name, this`hasBits, memory, input`pos
      ensures Valid() && input.Valid()
      ensures if ok then LeadsTo(from, Now(input, NAME_TAG)) && input.pos > old(input.pos)
              else EndsIn(from, Now(input, 0), false)
    {
      hide Has, Sharing.Sound, NextString, Expected, NextTag, NotifyValue, Touched;
      NotifyString(from.s, from.m, from.previous, input.Rest());
      ok := ReadName(input);
    }

    /** The case of the message, at parse_message */
    method MessageField(input: CodedInputStream, ghost from: Parse) returns (done: bool, ok: bool)
      requires Valid() && input.Valid()
      requires BehindTag(from, Now(input, 0), MESSAGE_TAG)
      requires input.lastTag == if from.previous == NAME_TAG && from.s[0] == MESSAGE_TAG then NAME_TAG else MESSAGE_TAG
      modifies this`message, this`hasBits, memory, input
      ensures Valid() && input.Valid()
      ensures if done then EndsIn(from, Now(input, 0), ok)
              else LeadsTo(from, Now(input, MESSAGE_TAG)) && input.pos > old(input.pos)
    {
      hide Has, Sharing.Sound, NextString, Expected, NextTag, NotifyValue, Touched;
      NotifyString(from.s, from.m, from.previous, input.Rest());
      ok := ReadMessage(input);
      if !ok { return true, false; }
      AtEnd(Value(), MESSAGE_TAG);
      done := input.ExpectAtEnd();
    }

    /**
     The loop with the jump from the name straight to the message when the next byte is the message's
     tag, and with the early return at the end of the input. For every input it gives the answer, the
     message, the position and the end flag of the plain loop, and the last tag too, except when it
     fails on a message string that it jumped to: then the last tag still is the name's.
     */
    method MergePartialFromCodedStream(input: CodedInputStream) returns (ok: bool)
      requires Valid() && input.Valid()
      modifies this, memory, input
      ensures Valid() && input.Valid()
      ensures var r := Merge(NOTIFY_SCHEMA, old(input.Rest()), old(Value()));
              && ok == r.ok && Value() == r.msg && input.pos == old(input.pos) + r.size
              && input.legitimateMessageEnd == (old(input.legitimateMessageEnd) || r.atEnd)
              && input.lastTag == if FailsPastPeek(old(input.Rest()), 0) then NAME_TAG else r.lastTag
    {
      ok := ParseLoop(input);
    }

    method ParseLoop(input: CodedInputStream) returns (ok: bool)
      requires Valid() && input.Valid()
      modifies this, memory, input
      ensures Valid() && input.Valid() && EndsIn(old(Now(input, 0)), Now(input, 0), ok)
    {
      hide Expected, Has, Sharing.Sound, NextTag, Value, LeadsTo, EndsIn;
      ghost var start := Now(input, 0);
      ghost var from := start;
      LeadsToItself(start);
      var done := false;
      ok := true;
      while !done
        invariant Valid() && input.Valid()
        invariant done ==> EndsIn(start, Now(input, 0), ok)
        invariant !done ==> AtRound(input, from) && LeadsTo(start, from)
        decreases !done, |input.buffer| - input.pos
      {
        ghost var to;
        done, ok, to := Round(input, from);
        if done {
          LeadsToEnd(start, from, Now(input, 0), ok);
        } else {
          LeadsOn(start, from, to);
          from := to;
        }
      }
    }

    /** This moment, at the head of the loop: a message after a name was not left to it. */
    ghost predicate AtRound(input: CodedInputStream, now: Parse)
      requires input.Valid()
      reads this, memory, input
    {
      && now == Now(input, now.previous)
      && (now.previous == NAME_TAG && now.s != [] ==> now.s[0] != MESSAGE_TAG)
    }

    /** Behind a name: the message, at parse_message, if its tag is next */
    method AfterName(input: CodedInputStream, ghost from: Parse) returns (done: bool, ok: bool, ghost to: Parse)
      requires Valid() && input.Valid() && from == Now(input, NAME_TAG) && input.lastTag == NAME_TAG
      modifies this, memory, input
      ensures Valid() && input.Valid()
      ensures if done then EndsIn(from, Now(input, 0), ok)
              else LeadsTo(from, to) && AtRound(input, to) && input.pos >= old(input.pos)
    {
      hide Expected, Has, Sharing.Sound, NextTag, EncodeVarint, Value, View, Valid, LeadsTo, EndsIn;
      to := from;
      LeadsToItself(from);
      StartsWithTag(input.Rest());
      var peeked := input.ExpectTag(MESSAGE_TAG);
      if !peeked { return false, true, to; }
      done, ok := MessageField(input, from);
      to := Now(input, MESSAGE_TAG);
    }

    /** One round of the loop: a tag and its field, or a name and the message right behind it */
    method Round(input: CodedInputStream, ghost from: Parse) returns (done: bool, ok: bool, ghost to: Parse)
      requires Valid() && input.Valid() && AtRound(input, from)
      modifies this, memory, input
      ensures Valid() && input.Valid()
      ensures if done then EndsIn(from, Now(input, 0), ok)
              else LeadsTo(from, to) && AtRound(input, to) && input.pos > old(input.pos)
    {
      hide Expected, Has, Sharing.Sound, NextTag, EncodeVarint, GetTagFieldNumber, GetTagWireType, Value, View, Valid, LeadsTo, EndsIn;
      to := from;
      var tag := input.ReadTag();
      if tag == 0 {
        Ends(from, Now(input, 0));
        return true, true, to;
      }
      TagIs(tag);
      var number, wire := GetTagFieldNumber(tag), GetTagWireType(tag);
      if number == NOTIFY_NAME && wire == WIRETYPE_LENGTH_DELIMITED {
        ok := NameField(input, from);
        if !ok { return true, false, to; }
        ghost var name := Now(input, NAME_TAG);
        done, ok, to := AfterName(input, name);
        if done {
          LeadsToEnd(from, name, Now(input, 0), ok);
        } else {
          LeadsOn(from, name, to);
        }
      } else if number == NOTIFY_MESSAGE && wire == WIRETYPE_LENGTH_DELIMITED {
        done, ok := MessageField(input, from);
        to := Now(input, MESSAGE_TAG);
      } else {
        done, ok := ForeignField(input, tag, from);
        to := Now(input, tag);
      }
    }

    static lemma Ends(from: Parse, now: Parse)
      requires NextTag(from.s).tag == 0 == now.lastTag && now.m == from.m && now.at == from.at + NextTag(from.s).size
      requires now.atEnd == (from.atEnd || NextTag(from.s).atEnd)
      ensures EndsIn(from, now, true)
    {
    }

    static lemma StartsWithTag(s: Bytes)
      ensures EncodeVarint(MESSAGE_TAG) <= s <==> s != [] && s[0] == MESSAGE_TAG
      ensures |EncodeVarint(MESSAGE_TAG)| == 1
      ensures s != [] && s[0] == MESSAGE_TAG ==> NextTag(s) == TagRead(MESSAGE_TAG, 1, false)
    {
    }

    static lemma TagIs(tag: uint32)
      ensures GetTagFieldNumber(tag) == NOTIFY_NAME && GetTagWireType(tag) == WIRETYPE_LENGTH_DELIMITED <==> tag == NAME_TAG
      ensures GetTagFieldNumber(tag) == NOTIFY_MESSAGE && GetTagWireType(tag) == WIRETYPE_LENGTH_DELIMITED <==> tag == MESSAGE_TAG
    {
    }

    static lemma AtEnd(m: Message, previous: uint32)
      ensures Expected([], m, previous) == Outcome(true, m, 0, 0, true)
    {
    }

    method IsInitialized() returns (b: bool)
      ensures b == (Has(hasBits, 1) && Has(hasBits, 2))
    {
      BothBits(hasBits);
      b := hasBits & 3 == 3;
    }

    /** ParseFromArray: Clear, parse, and check that the required fields are set and the end of the input was reached. */
    method ParseFromArray(data: Bytes) returns (ok: bool)
      requires Valid()
      modifies this, memory
      ensures Valid()
      ensures var r := Merge(NOTIFY_SCHEMA, data, EMPTY);
              Value() == r.msg && ok == (r.ok && r.atEnd && NOTIFY_NAME in r.msg.known && NOTIFY_MESSAGE in r.msg.known)
    {
      hide Merge, FailsPastPeek, Has, Sharing.Sound, MS.ClearMessage, MS.Fields, NotifyValue, Read;
      Clear();
      var input := new CodedInputStream(data);
      ok := MergePartialFromCodedStream(input);
      ValueParts();
      var complete := IsInitialized();
      ok := ok && complete && input.legitimateMessageEnd;
    }

    // ---- writing and merging ------------------------------------------------------------------------

    method ByteSize() returns (totalSize: nat)
      requires Valid()
      modifies this`cachedSize
      ensures Valid() && totalSize == Messages.ByteSize(NOTIFY_ORDER, Value()) == cachedSize
    {
      hide Sharing.Sound, Has, VarintSize32;
      totalSize := 0;
      if hasBits & 0xff != 0 {
        if Has(hasBits, 1) {
          var size := |Read(memory.h, name)|;
          totalSize := totalSize + (1 + (VarintSize32(size % TWO_32) + size));
        }
        if Has(hasBits, 2) {
          var size := |Read(memory.h, message)|;
          totalSize := totalSize + (1 + (VarintSize32(size % TWO_32) + size));
        }
      } else {
        NoBits(hasBits);
      }
      if unknown != [] {
        totalSize := totalSize + |SerializeFields(unknown)|;
      }
      cachedSize := totalSize;
      KnownOfTwo(Value().known);
    }

    /** What is written and how much, spelled out for the two fields */
    static lemma KnownOfTwo(known: map<fieldnum, FieldValue>)
      ensures KnownSize(NOTIFY_ORDER, known) ==
              (if NOTIFY_NAME in known then ValueSize(known[NOTIFY_NAME]) else 0) +
              (if NOTIFY_MESSAGE in known then ValueSize(known[NOTIFY_MESSAGE]) else 0)
      ensures SerializeKnown(NOTIFY_ORDER, known) ==
              (if NOTIFY_NAME in known then SerializeValue(NOTIFY_NAME, known[NOTIFY_NAME]) else []) +
              (if NOTIFY_MESSAGE in known then SerializeValue(NOTIFY_MESSAGE, known[NOTIFY_MESSAGE]) else [])
    {
      hide SerializeValue, ValueSize;
      assert NOTIFY_ORDER[1..] == [NOTIFY_MESSAGE];
      assert SerializeKnown([], known) == [] && KnownSize([], known) == 0;
      assert SerializeKnown([NOTIFY_MESSAGE], known) ==
             (if NOTIFY_MESSAGE in known then SerializeValue(NOTIFY_MESSAGE, known[NOTIFY_MESSAGE]) else []) + SerializeKnown([NOTIFY_MESSAGE][1..], known);
      assert [NOTIFY_MESSAGE][1..] == [];
    }

    /** Which fields the message has is in the bits, what they hold is in the strings. */
    lemma ValueParts()
      ensures var m := Value();
              && m.unknown == unknown
              && (NOTIFY_NAME in m.known <==> Has(hasBits, 1))
              && (NOTIFY_MESSAGE in m.known <==> Has(hasBits, 2))
              && (Has(hasBits, 1) ==> m.known[NOTIFY_NAME] == Text(Read(memory.h, name)))
              && (Has(hasBits, 2) ==> m.known[NOTIFY_MESSAGE] == Text(Read(memory.h, message)))
    {
    }

    /** Fills the ByteSize() bytes from position at on, and no others. */
    method SerializeWithCachedSizesToArray(target: array<byte>, at: nat) returns (end: nat)
      requires Valid() && WellFormed(NOTIFY_SCHEMA, Value())
      requires at + |Serialize(NOTIFY_ORDER, Value())| <= target.Length
      modifies target
      ensures end == at + |Serialize(NOTIFY_ORDER, Value())|
      ensures target[..] == Patch(old(target[..]), at, Serialize(NOTIFY_ORDER, Value()))
    {
      hide Has, Sharing.Sound, Read, MS.Fields, NotifyValue, SerializeValue, SerializeKnown, SerializeFields;
      hide Patch, WellFormedFields;
      ghost var was, m := target[..], Value();
      KnownOfTwo(m.known);
      ValueParts();
      ghost var done: Bytes := [];
      PatchNothing(was, at);
      end := at;
      if Has(hasBits, 1) {
        end := WriteStringToArray(NOTIFY_NAME, Read(memory.h, name), target, end);
        done := SerializeValue(NOTIFY_NAME, m.known[NOTIFY_NAME]);
      }
      if Has(hasBits, 2) {
        end := WriteStringToArray(NOTIFY_MESSAGE, Read(memory.h, message), target, end);
        PatchTwice(was, at, done, SerializeValue(NOTIFY_MESSAGE, m.known[NOTIFY_MESSAGE]));
        done := done + SerializeValue(NOTIFY_MESSAGE, m.known[NOTIFY_MESSAGE]);
      }
      assert done == SerializeKnown(NOTIFY_ORDER, m.known);
      if unknown != [] {
        end := WriteRawToArray(SerializeFields(unknown), target, end);
        PatchTwice(was, at, done, SerializeFields(unknown));
      } else {
        NoFieldsNoBytes(done);
      }
    }

    static lemma NoFieldsNoBytes(done: Bytes)
      ensures done + SerializeFields([]) == done
    {
    }

    /** Set fields of the other message win; unknown fields are appended; the other message stays as it is. */
    method MergeFrom(from: ChatNotify)
      requires Valid() && from.Valid() && from != this && from.memory == memory && Sharing.Apart(View(), from.View())
      modifies this, memory
      ensures Valid() && from.Valid() && Sharing.Apart(View(), from.View())
      ensures Value() == Messages.MergeFrom(old(Value()), old(from.Value())) && from.Value() == old(from.Value())
    {
      hide Has, Sharing.Sound, MS.Set, Read, NotifyValue, MS.Fields, Sharing.Elsewhere, Sharing.Apart;
      ghost var theirs, was := MS.Fields(from.View()), MS.Fields(View());
      PartsOf(from);
      if from.hasBits & 0xff != 0 {
        if Has(from.hasBits, 1) {
          MergeString(from, 0, Read(memory.h, from.name));
          SetName(Read(memory.h, from.name));
        }
        PartsOf(from);
        if Has(from.hasBits, 2) {
          MergeString(from, 1, Read(memory.h, from.message));
          SetMessage(Read(memory.h, from.message));
        }
      } else {
        NoBits(from.hasBits);
      }
      unknown := unknown + from.unknown;
      assert MS.Fields(View()) == [if theirs[0].Some? then theirs[0] else was[0], if theirs[1].Some? then theirs[1] else was[1]];
      MergedValue(was, old(unknown), theirs, from.unknown);
    }

    /** The accessor that a merge calls, seen from both messages */
    lemma MergeString(from: ChatNotify, i: nat, value: Bytes)
      requires Valid() && from.Valid() && from.memory == memory && Sharing.Apart(View(), from.View()) && i < 2
      ensures var s', o' := MS.Set(View(), i, value), from.View().(h := MS.Set(View(), i, value).h);
              && MS.Fields(s') == MS.Fields(View())[i := Some(value)]
              && Sharing.Sound(o') && MS.Fields(o') == MS.Fields(from.View()) && Sharing.Apart(s', o')
    {
      hide Sharing.Sound, Sharing.Elsewhere, Sharing.Apart, MS.Fields;
      Sharing.StepKeepsSound(View(), MS.OpSet(i, value));
      Sharing.OtherMessageStays(View(), MS.Set(View(), i, value), from.View());
    }

    static lemma PartsOf(m: ChatNotify)
      ensures MS.Fields(m.View())[0] == if Has(m.hasBits, 1) then Some(Read(m.memory.h, m.name)) else None
      ensures MS.Fields(m.View())[1] == if Has(m.hasBits, 2) then Some(Read(m.memory.h, m.message)) else None
    {
    }

    /** Field by field, what is set in the other message replaces what is here. */
    static lemma MergedValue(mine: seq<Option<Bytes>>, unknown: seq<UnknownField>, theirs: seq<Option<Bytes>>, more: seq<UnknownField>)
      requires |mine| == |theirs| == 2
      ensures NotifyValue([if theirs[0].Some? then theirs[0] else mine[0], if theirs[1].Some? then theirs[1] else mine[1]], unknown + more) ==
              Messages.MergeFrom(NotifyValue(mine, unknown), NotifyValue(theirs, more))
    {
      assert forall a: map<fieldnum, FieldValue>, b :: (a + b).Keys == a.Keys + b.Keys;
    }

    static lemma WriteIs(s: MS.State, i: nat, value: Bytes)
      requires i < |s.slots| && s.h.Live(s.slots[i].ptr)
      ensures MS.Write(s, i, value) == s.(h := s.h.Assign(s.slots[i].ptr, value))
    {
    }
  }
}
