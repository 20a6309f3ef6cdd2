/** What the server does with a dispatched packet (chatting_server.cpp), and delivery from one client to all. */
module Chat {
  import opened Bytes
  import opened Varint
  import opened WireFormat
  import opened CodedStream
  import opened UnknownFields
  import opened Messages
  import opened Store
  import opened Packets
  import opened PacketMessages
  import Framer
  import MS = MessageStrings
  import Sharing = MessageSharing

  const LOGIN_REQUEST_SCHEMA: Schema := map[LOGIN_REQUEST_NAME := StringKind]
  const LOGIN_RESPONSE_SCHEMA: Schema := map[LOGIN_RESPONSE_SUCCESS := BoolKind]
  const CHAT_REQUEST_SCHEMA: Schema := map[CHAT_REQUEST_MESSAGE := StringKind]

  /** A packet handed to post_send of a session */
  datatype Post = Post(session: nat, packet: Bytes)

  /** The names of the sessions, which sockets are open, and what was posted so far */
  datatype Server = Server(names: seq<Bytes>, open: set<nat>, posted: seq<Post>)

  /** The value of a string field, empty when not set */
  function TextOf(m: Message, number: fieldnum): Bytes {
    if number in m.known && m.known[number].Text? then m.known[number].text else []
  }

  /** A string as far as its first NUL, which is what get_name() hands on as a char pointer */
  function CString(s: Bytes): (r: Bytes)
    ensures |r| <= |s|
  {
    if s == [] || s[0] == 0 then [] else [s[0]] + CString(s[1..])
  }

  lemma {:induction false} CStringIsWhole(s: Bytes)
    ensures CString(s) == s <==> 0 !in s
  {
    if s != [] {
      CStringIsWhole(s[1..]);
      assert s == [s[0]] + s[1..];
    }
  }

  function ChatNotice(name: Bytes, text: Bytes): Message {
    Message(map[NOTIFY_NAME := Text(CString(name)), NOTIFY_MESSAGE := Text(text)], [])
  }

  function NoticePacket(crc: Crc, pad: Bytes, name: Bytes, text: Bytes): Bytes
    requires |pad| == 2
  {
    Packet(crc, NOTICE_CHAT, pad, Serialize(NOTIFY_ORDER, ChatNotice(name, text)))
  }

  function LoginReply(crc: Crc, pad: Bytes): Bytes
    requires |pad| == 2
  {
    Packet(crc, REPLY_LOGIN, pad, Serialize([LOGIN_RESPONSE_SUCCESS], Message(map[LOGIN_RESPONSE_SUCCESS := Flag(true)], [])))
  }

  /** One post to each open session from number i on */
  function Broadcast(open: set<nat>, i: nat, n: nat, packet: Bytes): seq<Post>
    requires i <= n
    decreases n - i
  {
    if i == n then []
    else (if i in open then [Post(i, packet)] else []) + Broadcast(open, i + 1, n, packet)
  }

  /** process_packet for a dispatched buffer; whether the content parsed is not looked at. */
  function AfterPacket(crc: Crc, pad: Bytes, s: Server, id: nat, data: Bytes): (r: Server)
    requires |pad| == 2 && id < |s.names|
    requires |data| >= HEADER_SIZE && ReadHeader(data).PacketSize() <= |data|
    ensures |r.names| == |s.names| && r.open == s.open
  {
    var kind := ReadHeader(data).id;
    if kind == REQUEST_LOGIN then
      var name := TextOf(Merge(LOGIN_REQUEST_SCHEMA, Content(data), Messages.EMPTY).msg, LOGIN_REQUEST_NAME);
      s.(names := s.names[id := name], posted := s.posted + [Post(id, LoginReply(crc, pad))])
    else if kind == REQUEST_CHAT then
      var text := TextOf(Merge(CHAT_REQUEST_SCHEMA, Content(data), Messages.EMPTY).msg, CHAT_REQUEST_MESSAGE);
      s.(posted := s.posted + Broadcast(s.open, 0, |s.names|, NoticePacket(crc, pad, s.names[id], text)))
    else s
  }

  /** Each open session with an id in i .. n - 1 gets the packet once, in the order of the ids, and nobody else gets it. */
  ghost predicate Delivers(posts: seq<Post>, open: set<nat>, i: nat, n: nat, packet: Bytes) {
    && (forall k | 0 <= k < |posts| :: posts[k].packet == packet && i <= posts[k].session < n && posts[k].session in open)
    && (forall j, k | 0 <= j < k < |posts| :: posts[j].session < posts[k].session)
    && (forall id | i <= id < n && id in open :: Post(id, packet) in posts)
  }

  lemma DeliversOneMore(posts: seq<Post>, open: set<nat>, i: nat, n: nat, packet: Bytes)
    requires i < n && i in open && Delivers(posts, open, i + 1, n, packet)
    ensures Delivers([Post(i, packet)] + posts, open, i, n, packet)
  {
  }

  lemma DeliversNoMore(posts: seq<Post>, open: set<nat>, i: nat, n: nat, packet: Bytes)
    requires i < n && i !in open && Delivers(posts, open, i + 1, n, packet)
    ensures Delivers(posts, open, i, n, packet)
  {
  }

  lemma {:induction false} BroadcastReachesEveryOpenSession(open: set<nat>, i: nat, n: nat, packet: Bytes)
    requires i <= n
    ensures Delivers(Broadcast(open, i, n, packet), open, i, n, packet)
    decreases n - i
  {
    if i == n {
      assert Broadcast(open, n, n, packet) == [];
    } else {
      hide Delivers;
      var posts := Broadcast(open, i + 1, n, packet);
      BroadcastReachesEveryOpenSession(open, i + 1, n, packet);
      if i in open {
        DeliversOneMore(posts, open, i, n, packet);
      } else {
        DeliversNoMore(posts, open, i, n, packet);
        assert [] + posts == posts;
      }
    }
  }

  /** The limit of 20 bytes of content, at the server: the bytes buffered with such a header are dropped. */
  lemma OversizedChatIsDropped(crc: Crc, s: Framer.State, chunk: Bytes)
    requires s.Sane() && !s.contentMode && |s.buffer| == s.mark && HEADER_SIZE <= |s.buffer| + |chunk| < TWO_32
    requires var h := ReadHeader(s.buffer + chunk); h.id == REQUEST_CHAT && h.contentSize > MAX_CHAT_MESSAGE_LEN
    ensures Framer.Receive(crc, true, s, chunk) == Framer.Result(Framer.EMPTY, [])
  {
    assert s.buffer[..s.mark] + chunk + s.buffer[s.mark..] == s.buffer + chunk;
  }

  // ---- End to end -----------------------------------------------------------------------------

  function ChatRequestContent(text: Bytes): Bytes {
    Serialize([CHAT_REQUEST_MESSAGE], Message(map[CHAT_REQUEST_MESSAGE := Text(text)], []))
  }

  /** The server's limit of 20 bytes of content is a limit of 18 bytes of text. */
  lemma ChatTextLimit(text: Bytes)
    requires |text| < TWO_31
    ensures |ChatRequestContent(text)| <= MAX_CHAT_MESSAGE_LEN <==> |text| <= 18
    ensures |ChatRequestContent(text)| < TWO_32
  {
    var m := Message(map[CHAT_REQUEST_MESSAGE := Text(text)], []);
    ByteSizeIsExact(CHAT_REQUEST_SCHEMA, [CHAT_REQUEST_MESSAGE], m);
    assert KnownSize([CHAT_REQUEST_MESSAGE][1..], m.known) == 0;
  }

  ghost predicate IsPad(pad: Bytes) { |pad| == 2 }

  /** A chat request that the client makes is well-formed at the server exactly when its text has at most 18 bytes. */
  lemma ChatRequestIsWellFormed(crc: Crc, pad: Bytes, text: Bytes)
    requires IsPad(pad) && |text| < TWO_31
    ensures var p := Packet(crc, REQUEST_CHAT, pad, ChatRequestContent(text));
            WellFormedPacket(crc, true, p) <==> |text| <= 18
  {
    hide Packet, ChatRequestContent;
    ChatTextLimit(text);
    PacketReads(crc, REQUEST_CHAT, pad, ChatRequestContent(text));
  }

  /** The server reads the text back. */
  lemma ChatRequestReads(text: Bytes)
    requires |text| < TWO_31
    ensures TextOf(Merge(CHAT_REQUEST_SCHEMA, ChatRequestContent(text), Messages.EMPTY).msg, CHAT_REQUEST_MESSAGE) == text
  {
    var m := Message(map[CHAT_REQUEST_MESSAGE := Text(text)], []);
    RoundTrip(CHAT_REQUEST_SCHEMA, [CHAT_REQUEST_MESSAGE], m);
  }

  /** A notice that arrives parses, completely, to the sender's name and the text. */
  lemma NoticeReads(name: Bytes, text: Bytes)
    requires |name| < TWO_31 && |text| < TWO_31
    ensures var content := Serialize(NOTIFY_ORDER, ChatNotice(name, text));
            Merge(NOTIFY_SCHEMA, content, Messages.EMPTY) == Outcome(true, ChatNotice(name, text), |content|, 0, true)
  {
    NoticeIsWellFormed(name, text);
    RoundTrip(NOTIFY_SCHEMA, NOTIFY_ORDER, ChatNotice(name, text));
  }

  lemma NoticeIsWellFormed(name: Bytes, text: Bytes)
    requires |name| < TWO_31 && |text| < TWO_31
    ensures WritesAll(NOTIFY_ORDER, NOTIFY_SCHEMA) && WellFormed(NOTIFY_SCHEMA, ChatNotice(name, text))
  {
  }

  /** The size of a notice's content in terms of the two lengths */
  function NoticeLength(name: Bytes, text: Bytes): nat
    requires |name| < TWO_31 && |text| < TWO_31
  {
    2 + VarintSize32(|CString(name)|) + |CString(name)| + VarintSize32(|text|) + |text|
  }

  lemma NoticeSize(name: Bytes, text: Bytes)
    requires |name| < TWO_31 && |text| < TWO_31
    ensures |Serialize(NOTIFY_ORDER, ChatNotice(name, text))| == NoticeLength(name, text)
  {
    hide WritesAll, WellFormed, Serialize, SerializeKnown, KnownSize, VarintSize32, CString;
    NoticeIsWellFormed(name, text);
    ByteSizeIsExact(NOTIFY_SCHEMA, NOTIFY_ORDER, ChatNotice(name, text));
    ChatNotify.KnownOfTwo(ChatNotice(name, text).known);
  }

  /** With a text that passed the server's gate the packet itself fits 32 bits, whatever the name. */
  lemma NoticeIsSmall(name: Bytes, text: Bytes)
    requires |name| < TWO_31 && |text| <= 18
    ensures |Serialize(NOTIFY_ORDER, ChatNotice(name, text))| < TWO_32 - HEADER_SIZE
  {
    NoticeSize(name, text);
  }

  /**
   End-to-end delivery. A chat text of at most 18 bytes, sent by session id and cut into chunks in any
   way, makes the server post one notice to each open session, in id order. Whichever of them one
   follows, cut into chunks in any way its client dispatches exactly that notice, whose content parses
   completely to the text and to the sender's name as far as its first NUL: all of it exactly when it
   holds no NUL.
   */
  lemma ChatIsDelivered(crc: Crc, padIn: Bytes, padOut: Bytes, s: Server, id: nat, text: Bytes, cut: seq<Bytes>, cutOut: seq<Bytes>)
    requires IsPad(padIn) && IsPad(padOut) && id < |s.names| && |s.names[id]| < TWO_31 && |text| <= 18
    requires Framer.Concat(cut) == Packet(crc, REQUEST_CHAT, padIn, ChatRequestContent(text))
    requires Framer.Concat(cutOut) == NoticePacket(crc, padOut, s.names[id], text)
    ensures var request := Packet(crc, REQUEST_CHAT, padIn, ChatRequestContent(text));
            var notice := NoticePacket(crc, padOut, s.names[id], text);
            && Framer.Run(crc, true, Framer.EMPTY, cut) == Framer.Result(Framer.EMPTY, [request])
            && |request| >= HEADER_SIZE && ReadHeader(request).PacketSize() == |request|
            && (var s' := AfterPacket(crc, padOut, s, id, request);
                && s'.names == s.names && |s.posted| <= |s'.posted| && s'.posted[..|s.posted|] == s.posted
                && Delivers(s'.posted[|s.posted|..], s.open, 0, |s.names|, notice))
            && Framer.Run(crc, false, Framer.EMPTY, cutOut) == Framer.Result(Framer.EMPTY, [notice])
            && |notice| >= HEADER_SIZE && ReadHeader(notice).PacketSize() == |notice| && ReadHeader(notice).id == NOTICE_CHAT
            && (var r := Merge(NOTIFY_SCHEMA, Content(notice), Messages.EMPTY);
                && r.ok && r.atEnd
                && TextOf(r.msg, NOTIFY_MESSAGE) == text
                && (TextOf(r.msg, NOTIFY_NAME) == s.names[id] <==> 0 !in s.names[id]))
  {
    hide Merge, Packet, Serialize, Delivers, Framer.Run, ReadHeader;
    RequestArrives(crc, padIn, text, cut);
    NoticeArrives(crc, padOut, s.names[id], text, cutOut);
    ChatRequestReads(text);
    var notice := NoticePacket(crc, padOut, s.names[id], text);
    BroadcastReachesEveryOpenSession(s.open, 0, |s.names|, notice);
    CStringIsWhole(s.names[id]);
  }

  lemma RequestArrives(crc: Crc, pad: Bytes, text: Bytes, cut: seq<Bytes>)
    requires IsPad(pad) && |text| <= 18
    requires Framer.Concat(cut) == Packet(crc, REQUEST_CHAT, pad, ChatRequestContent(text))
    ensures var p := Packet(crc, REQUEST_CHAT, pad, ChatRequestContent(text));
            && Framer.Run(crc, true, Framer.EMPTY, cut) == Framer.Result(Framer.EMPTY, [p])
            && |p| >= HEADER_SIZE && ReadHeader(p).PacketSize() == |p| && ReadHeader(p).id == REQUEST_CHAT
            && Content(p) == ChatRequestContent(text)
  {
    hide Packet, ChatRequestContent, Framer.Run;
    var p := Packet(crc, REQUEST_CHAT, pad, ChatRequestContent(text));
    ChatTextLimit(text);
    PacketReads(crc, REQUEST_CHAT, pad, ChatRequestContent(text));
    Framer.OnePacketArrives(crc, true, p, cut);
  }

  lemma NoticeArrives(crc: Crc, pad: Bytes, name: Bytes, text: Bytes, cut: seq<Bytes>)
    requires IsPad(pad) && |name| < TWO_31 && |text| <= 18
    requires Framer.Concat(cut) == NoticePacket(crc, pad, name, text)
    ensures var p := NoticePacket(crc, pad, name, text);
            && Framer.Run(crc, false, Framer.EMPTY, cut) == Framer.Result(Framer.EMPTY, [p])
            && |p| >= HEADER_SIZE && ReadHeader(p).PacketSize() == |p| && ReadHeader(p).id == NOTICE_CHAT
            && (var r := Merge(NOTIFY_SCHEMA, Content(p), Messages.EMPTY);
                && r.ok && r.atEnd
                && TextOf(r.msg, NOTIFY_MESSAGE) == text && TextOf(r.msg, NOTIFY_NAME) == CString(name))
  {
    hide Packet, Serialize, Merge, Framer.Run;
    var content := Serialize(NOTIFY_ORDER, ChatNotice(name, text));
    NoticeIsSmall(name, text);
    PacketReads(crc, NOTICE_CHAT, pad, content);
    Framer.OnePacketArrives(crc, false, NoticePacket(crc, pad, name, text), cut);
    NoticeReads(name, text);
  }

  // ---- process_packet step by step ----------------------------------------------------------------

  lemma FilledIn(crc: Crc, id: nat, pad: Bytes, garbage: Bytes, content: Bytes)
    requires IsPad(pad) && |garbage| == |content|
    ensures |Packet(crc, id, pad, garbage)| == HEADER_SIZE + |content|
    ensures Patch(Packet(crc, id, pad, garbage), HEADER_SIZE, content) == Packet(crc, id, pad, content)
  {
  }

  /** The longest string that a message of less than 2^31 bytes can hold, behind its tag and its length */
  const MAX_TEXT := TWO_31 - 7

  predicate FitsBehindTag(text: Bytes, n: nat) { text == [] || 1 + VarintSize32(|text| % TWO_32) + |text| <= n }

  /** No text in the message is longer than n bytes of input can hold. */
  ghost predicate TextsWithin(m: Message, n: nat) {
    forall number: fieldnum :: FitsBehindTag(TextOf(m, number), n)
  }

  lemma StringFits(s: Bytes)
    requires NextString(s).Some?
    ensures var text := NextString(s).value.0; VarintSize32(|text| % TWO_32) + |text| <= |s|
  {
    var (v, n) := DecodeVarint(s, MAX_VARINT_BYTES).value;
    var (len, _) := ReadVarint32(s).value;
    CanonicalIsShortest(s, MAX_VARINT_BYTES);
    hide DecodeVarint;
    ShorterIsShorter(len, v, n);
    VarintSizeIsLength(len);
  }

  lemma ShorterIsShorter(len: nat, v: nat, k: nat)
    requires len <= v && |EncodeVarint(v)| <= k
    ensures |EncodeVarint(len)| <= k
  {
    EncodedLength(v, k);
    EncodedLength(len, k);
  }

  lemma FieldFits(schema: Schema, s: Bytes, tag: uint32, m: Message, n: nat)
    requires TextsWithin(m, n) && |s| < n
    ensures TextsWithin(MergeField(schema, s, tag, m).msg, n)
  {
    var m' := MergeField(schema, s, tag, m).msg;
    var k := GetTagFieldNumber(tag);
    hide GetTagFieldNumber, GetTagWireType, SkipField, VarintSize32;
    if Defines(schema, k, GetTagWireType(tag)) && schema[k] == StringKind && NextString(s).Some? {
      StringFits(s);
    }
    hide NextString;
    forall number: fieldnum
      ensures FitsBehindTag(TextOf(m', number), n)
    {
      assert FitsBehindTag(TextOf(m, number), n);
    }
  }

  lemma {:induction false} TextsFit(schema: Schema, s: Bytes, m: Message, n: nat)
    requires TextsWithin(m, n) && |s| <= n
    ensures TextsWithin(Merge(schema, s, m).msg, n)
    decreases |s|
  {
    hide MergeField, TextsWithin;
    var t := NextTag(s);
    hide NextTag;
    if t.tag != 0 {
      var value := s[t.size..];
      FieldFits(schema, value, t.tag, m, n);
      var step := MergeField(schema, value, t.tag, m);
      if step.Next? {
        TextsFit(schema, value[step.size..], step.msg, n);
      }
    }
  }

  /** A text that was parsed is no longer than its message's bytes allow. */
  lemma TextIsShort(schema: Schema, content: Bytes, number: fieldnum)
    requires |content| < TWO_31
    ensures |TextOf(Merge(schema, content, Messages.EMPTY).msg, number)| <= MAX_TEXT
  {
    hide Merge;
    assert TextsWithin(Messages.EMPTY, |content|);
    TextsFit(schema, content, Messages.EMPTY, |content|);
    assert FitsBehindTag(TextOf(Merge(schema, content, Messages.EMPTY).msg, number), |content|);
  }

  /** The size of a notice of two such texts still fits the header. */
  lemma NoticeFits(name: Bytes, text: Bytes)
    requires |name| <= MAX_TEXT && |text| <= MAX_TEXT
    ensures NoticeLength(name, text) < TWO_32
  {
  }

  /** What new byte[size] holds */
  type Garbage = nat -> byte

  function PadOf(garbage: Garbage): Bytes { [garbage(2), garbage(3)] }

  function Fresh(size: nat, garbage: Garbage): (r: Bytes)
    ensures |r| == size && (size >= 4 ==> r[2..4] == PadOf(garbage))
  {
    seq(size, i requires 0 <= i < size => garbage(i))
  }

  /** chat_server::process_packet over the sessions' names, their sockets and what was posted */
  class PacketProcessor {
    const memory: Memory<Bytes>
    var names: seq<Bytes>
    var open: set<nat>
    var posted: seq<Post>

    ghost function View(): Server
      reads this
    {
      Server(names, open, posted)
    }

    /** No string is left over from earlier packets, and no name is longer than one that a packet can bring. */
    ghost predicate Valid()
      reads this, memory
    {
      && memory.h.empty == [] && Conserved([], memory.h)
      && forall i | 0 <= i < |names| :: |names[i]| <= MAX_TEXT
    }

    /** n sessions, none of them open or named yet */
    constructor (memory: Memory<Bytes>, n: nat)
      requires memory.h.empty == [] && Conserved([], memory.h)
      ensures Valid() && this.memory == memory && View() == Server(seq(n, _ => []), {}, [])
    {
      this.memory := memory;
      names, open, posted := seq(n, _ => []), {}, [];
    }

    /** The notice: a ChatNotify is filled in, measured and serialised behind the header. */
    method BuildNotice(crc: Crc, name: Bytes, text: Bytes, garbage: Garbage) returns (packet: array<byte>)
      requires Valid() && |name| < TWO_31 && |text| < TWO_31 && NoticeLength(name, text) < TWO_32
      modifies memory
      ensures Valid() && fresh(packet) && packet[..] == NoticePacket(crc, PadOf(garbage), name, text)
    {
      hide Conserved, Sharing.Sound, Sharing.Elsewhere, Beyond, Held, MS.Set, MS.Fields, Serialize, WellFormed, Packet, Patch, NoticeLength;
      var notification := new ChatNotify(memory);
      NothingOwned(notification.View());
      NothingSet(notification);
      Sharing.StepKeepsSound(notification.View(), MS.OpSet(0, CString(name)));
      notification.SetName(CString(name));
      Sharing.StepKeepsSound(notification.View(), MS.OpSet(1, text));
      notification.SetMessage(text);
      NoticeValue(name, text);
      NoticeIsWellFormed(name, text);
      NoticeSize(name, text);
      ByteSizeIsExact(NOTIFY_SCHEMA, NOTIFY_ORDER, ChatNotice(name, text));
      var contentSize := notification.ByteSize();
      var fill := Fresh(contentSize + HEADER_SIZE, garbage);
      packet := BuildPacket(crc, NOTICE_CHAT, contentSize, fill);
      FilledIn(crc, NOTICE_CHAT, PadOf(garbage), fill[HEADER_SIZE..], Serialize(NOTIFY_ORDER, ChatNotice(name, text)));
      var end := notification.SerializeWithCachedSizesToArray(packet, HEADER_SIZE);
      notification.Destroy();
      NothingIsLeft(memory.h);
    }

    static lemma NothingIsLeft(h: Heap<Bytes>)
      requires Held([], h) && Beyond([], h) == {}
      ensures Conserved([], h)
    {
      assert Among(h, {}) == h;
    }

    static lemma NothingOwned(s: MS.State)
      requires s.slots == [MS.Slot(EMPTY_STRING, false), MS.Slot(EMPTY_STRING, false)] && s.h.empty == [] && Conserved([], s.h)
      ensures Sharing.Sound(s) && Sharing.Elsewhere(s) == {} && MS.Fields(s) == [None, None]
    {
      MS.FreshOwnsNothing(s.slots);
      Sharing.TheOnlyOwnerIsSound(s);
    }

    static lemma NothingSet(m: ChatNotify)
      requires m.Value() == Messages.EMPTY
      ensures m.unknown == []
    {
    }

    static lemma NoticeValue(name: Bytes, text: Bytes)
      ensures NotifyValue([None, None][0 := Some(CString(name))][1 := Some(text)], []) == ChatNotice(name, text)
    {
    }

    /** The reply to a login, whose content is the success flag */
    static method BuildLoginReply(crc: Crc, garbage: Garbage) returns (packet: array<byte>)
      ensures fresh(packet) && packet[..] == LoginReply(crc, PadOf(garbage))
    {
      hide Packet, Patch, EncodeVarint;
      ghost var tag, value := EncodeVarint(16), EncodeVarint(1);
      LoginContent();
      var fill := Fresh(2 + HEADER_SIZE, garbage);
      packet := BuildPacket(crc, REPLY_LOGIN, 2, fill);
      ghost var built := packet[..];
      FilledIn(crc, REPLY_LOGIN, PadOf(garbage), fill[HEADER_SIZE..], tag + value);
      var end := WriteTagToArray(16, packet, HEADER_SIZE);
      end := WriteVarint32ToArray(1, packet, end);
      PatchTwice(built, HEADER_SIZE, tag, value);
    }

    static lemma LoginContent()
      ensures |EncodeVarint(16)| == |EncodeVarint(1)| == 1
      ensures Serialize([LOGIN_RESPONSE_SUCCESS], Message(map[LOGIN_RESPONSE_SUCCESS := Flag(true)], [])) == EncodeVarint(16) + EncodeVarint(1)
    {
      var known: map<fieldnum, FieldValue> := map[LOGIN_RESPONSE_SUCCESS := Flag(true)];
      assert [LOGIN_RESPONSE_SUCCESS][1..] == [];
      assert SerializeFields([]) == [] && SerializeKnown([], known) == [];
      assert MakeTag(LOGIN_RESPONSE_SUCCESS, WIRETYPE_VARINT) == 16;
      assert ValuePayload(Flag(true)) == EncodeVarint(1);
      assert SerializeValue(LOGIN_RESPONSE_SUCCESS, Flag(true)) == EncodeVarint(16) + EncodeVarint(1);
    }

    method ProcessPacket(crc: Crc, id: nat, data: Bytes, garbage: Garbage)
      requires Valid() && id < |names|
      requires |data| >= HEADER_SIZE && ReadHeader(data).PacketSize() <= |data| && ReadHeader(data).contentSize < TWO_31
      modifies this`names, this`posted, memory
      ensures Valid() && View() == AfterPacket(crc, PadOf(garbage), old(View()), id, data)
    {
      hide Conserved, Merge, NoticePacket, LoginReply, ReadHeader, NoticeLength;
      var header := ReadHeader(data);
      assert |Content(data)| < TWO_31;
      if header.id == REQUEST_LOGIN {
        var request := Merge(LOGIN_REQUEST_SCHEMA, Content(data), Messages.EMPTY);
        TextIsShort(LOGIN_REQUEST_SCHEMA, Content(data), LOGIN_REQUEST_NAME);
        names := names[id := TextOf(request.msg, LOGIN_REQUEST_NAME)];
        var packet := BuildLoginReply(crc, garbage);
        posted := posted + [Post(id, packet[..])];
      } else if header.id == REQUEST_CHAT {
        var request := Merge(CHAT_REQUEST_SCHEMA, Content(data), Messages.EMPTY);
        TextIsShort(CHAT_REQUEST_SCHEMA, Content(data), CHAT_REQUEST_MESSAGE);
        NoticeFits(names[id], TextOf(request.msg, CHAT_REQUEST_MESSAGE));
        var packet := BuildNotice(crc, names[id], TextOf(request.msg, CHAT_REQUEST_MESSAGE), garbage);
        BroadcastPacket(packet);
      }
    }

    /** The loop over all sessions: each open one gets the same packet. */
    method BroadcastPacket(packet: array<byte>)
      modifies this`posted
      ensures posted == old(posted) + Broadcast(open, 0, |names|, packet[..])
    {
      for i := 0 to |names|
        invariant posted + Broadcast(open, i, |names|, packet[..]) == old(posted) + Broadcast(open, 0, |names|, packet[..])
      {
        if i in open {
          posted := posted + [Post(i, packet[..])];
        }
      }
    }
  }
}
